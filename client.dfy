/**
 * The client of blt/src/application_client.rs: it walks the adapter's device
 * events, prepares each added device (pairing it, with retries, when its alias
 * is listed), looks for the application's service on it (connecting, with
 * retries, when the service is advertised), checks the service's
 * characteristics against the descriptor, and stops at the first device that
 * matches completely. Devices whose search fails are removed; devices that do
 * not match and are still connected are disconnected.
 *
 * The Bluetooth stack is not modelled: every answer a device gives (its paired
 * and connected state, the outcome of each pairing or connection attempt, its
 * advertised and exposed services, the UUIDs of their characteristics) is part
 * of the device's script, and the client records the stack calls it makes.
 */
module Client {
  import opened Common
  import opened Descriptor

  /** Retries after the first pairing attempt. */
  const PAIR_RETRIES: nat := 5
  /** Retries after the first connection attempt. */
  const CONNECT_RETRIES: nat := 2

  /** The answer to a query on the stack, or its error (the `?` that propagates it). */
  datatype Query<+T> = Answer(value: T) | QueryFailed

  datatype RemoteCharacteristic = RemoteCharacteristic(handle: nat, uuid: Query<Uuid>)

  datatype RemoteService = RemoteService(
    handle: nat,
    uuid: Query<Uuid>,
    characteristics: Query<seq<RemoteCharacteristic>>)

  /** A discovered device, as it answers the client. `pairOutcomes` and `connectOutcomes`
      are the outcomes of successive `pair()` and `connect()` calls (an attempt past the
      end of the script fails); `connectedAfterSearch` is what `is_connected()` answers
      once the search on the device is over. */
  datatype Device = Device(
    address: nat,
    alias: string,
    paired: Query<bool>,
    pairOutcomes: seq<bool>,
    advertised: Query<Option<seq<Uuid>>>,
    connected: Query<bool>,
    connectOutcomes: seq<bool>,
    services: Query<seq<RemoteService>>,
    connectedAfterSearch: Query<bool>)

  datatype AdapterEvent = DeviceAdded(device: Device) | DeviceRemoved(address: nat) | PropertyChanged

  /** The calls that change the stack's state. */
  datatype StackCall =
    | Pair(address: nat)
    | Connect(address: nat)
    | Disconnect(address: nat)
    | RemoveDevice(address: nat)

  /** `Result<Option<T>>`: found, not found, or an error. */
  datatype Search<+T> = Found(value: T) | NotFound | Failed

  /** Whether a step succeeded, and the stack calls it made. */
  datatype Effect = Effect(ok: bool, calls: seq<StackCall>)

  /** Whether the `k`-th attempt (from 0) succeeds. */
  predicate Succeeds(outcomes: seq<bool>, k: nat)
  {
    k < |outcomes| && outcomes[k]
  }

  /** The retry loop of `device_pair` and `device_connect`, after `done` failed attempts
      and with `retries` retries left: whether it succeeds and how many attempts it
      makes in all. It stops at the first success and fails only once the retries are
      exhausted, after `done + retries + 1` attempts. */
  function RetryFrom(outcomes: seq<bool>, done: nat, retries: nat): (r: (bool, nat))
    ensures done < r.1 <= done + retries + 1
    ensures r.0 <==> exists k :: done <= k <= done + retries && Succeeds(outcomes, k)
    ensures r.0 ==> Succeeds(outcomes, r.1 - 1)
    ensures forall k :: done <= k < r.1 - 1 ==> !Succeeds(outcomes, k)
    ensures !r.0 ==> r.1 == done + retries + 1
    decreases retries
  {
    if Succeeds(outcomes, done) then (true, done + 1)
    else if retries > 0 then RetryFrom(outcomes, done + 1, retries - 1)
    else (false, done + 1)
  }

  /** `n` copies of a call. */
  function Repeat(call: StackCall, n: nat): (calls: seq<StackCall>)
    ensures |calls| == n && forall k :: 0 <= k < n ==> calls[k] == call
  {
    seq(n, _ => call)
  }

  /** `device_pair`. */
  function PairSpec(d: Device): Effect
  {
    match d.paired
    case QueryFailed => Effect(false, [])
    case Answer(paired) =>
      if paired then Effect(true, [])
      else
        var r := RetryFrom(d.pairOutcomes, 0, PAIR_RETRIES);
        Effect(r.0, Repeat(Pair(d.address), r.1))
  }

  /** `device_connect`. */
  function ConnectSpec(d: Device): Effect
  {
    match d.connected
    case QueryFailed => Effect(false, [])
    case Answer(connected) =>
      if connected then Effect(true, [])
      else
        var r := RetryFrom(d.connectOutcomes, 0, CONNECT_RETRIES);
        Effect(r.0, Repeat(Connect(d.address), r.1))
  }

  /** `device_need_pair`: the alias is on the list of devices to pair. */
  predicate NeedPair(d: Device, devicesToBePaired: seq<string>)
  {
    d.alias in devicesToBePaired
  }

  /** `device_prepare_for_discovering`: pair when the alias is listed; a pairing
      failure is an error. */
  function PrepareSpec(d: Device, devicesToBePaired: seq<string>): Effect
  {
    if NeedPair(d, devicesToBePaired) then PairSpec(d) else Effect(true, [])
  }

  /** The scan of a device's services for the one with the service UUID: the index of the
      first whose UUID matches, unless reading an earlier one's UUID fails. */
  function FirstService(services: seq<RemoteService>, uuid: Uuid): (r: Search<nat>)
    ensures r.Found? ==>
              && r.value < |services| && services[r.value].uuid == Answer(uuid)
              && forall k :: 0 <= k < r.value ==> services[k].uuid.Answer? && services[k].uuid.value != uuid
    ensures r.NotFound? ==> forall k :: 0 <= k < |services| ==> services[k].uuid.Answer? && services[k].uuid.value != uuid
    ensures r.Failed? ==>
              exists i :: 0 <= i < |services| && services[i].uuid.QueryFailed?
                          && forall k :: 0 <= k < i ==> services[k].uuid.Answer? && services[k].uuid.value != uuid
  {
    if services == [] then NotFound
    else match services[0].uuid
      case QueryFailed => Failed
      case Answer(u) =>
        if u == uuid then Found(0)
        else match FirstService(services[1..], uuid)
          case Found(i) => Found(i + 1)
          case NotFound => NotFound
          case Failed => Failed
  }

  /** The outcome of `find_application_service`, and the stack calls it makes. */
  datatype ServiceSearch = ServiceSearch(result: Search<RemoteService>, calls: seq<StackCall>)

  function FindServiceSpec(d: Device, serviceUuid: Uuid, devicesToBePaired: seq<string>): ServiceSearch
  {
    var prep := PrepareSpec(d, devicesToBePaired);
    if !prep.ok then ServiceSearch(Failed, prep.calls)
    else match d.advertised
      case QueryFailed => ServiceSearch(Failed, prep.calls)
      case Answer(advertised) =>
        var uuids := if advertised.Some? then advertised.value else [];
        if serviceUuid in uuids then
          var conn := ConnectSpec(d);
          if !conn.ok then ServiceSearch(Failed, prep.calls + conn.calls)
          else match d.services
            case QueryFailed => ServiceSearch(Failed, prep.calls + conn.calls)
            case Answer(services) =>
              var result := match FirstService(services, serviceUuid)
                case Found(i) => Found(services[i])
                case NotFound => NotFound
                case Failed => Failed;
              ServiceSearch(result, prep.calls + conn.calls)
        else ServiceSearch(NotFound, prep.calls + [Disconnect(d.address)])
  }

  /** A characteristic the descriptor knows. */
  predicate Acceptable(c: RemoteCharacteristic, known: seq<Uuid>)
  {
    c.uuid.Answer? && c.uuid.value in known
  }

  /** The first characteristic whose UUID cannot be read or is not in the descriptor. */
  function FirstBad(chars: seq<RemoteCharacteristic>, known: seq<Uuid>): (r: Option<nat>)
    ensures r.Some? ==> r.value < |chars| && !Acceptable(chars[r.value], known)
                        && forall k :: 0 <= k < r.value ==> Acceptable(chars[k], known)
    ensures r.None? ==> forall k :: 0 <= k < |chars| ==> Acceptable(chars[k], known)
  {
    if chars == [] then None
    else if !Acceptable(chars[0], known) then Some(0)
    else match FirstBad(chars[1..], known)
      case None => None
      case Some(i) => Some(i + 1)
  }

  /** The map `find_characteristics` fills: each characteristic inserted under its UUID,
      a later one replacing an earlier one with the same UUID. Its keys are exactly the
      UUIDs read. */
  function Collected(chars: seq<RemoteCharacteristic>, known: seq<Uuid>): (m: map<Uuid, RemoteCharacteristic>)
    requires forall k :: 0 <= k < |chars| ==> Acceptable(chars[k], known)
    ensures forall u :: u in m <==> exists k :: 0 <= k < |chars| && chars[k].uuid == Answer(u)
  {
    if chars == [] then map[]
    else
      var last := chars[|chars| - 1];
      var m := Collected(chars[..|chars| - 1], known);
      assert forall k :: 0 <= k < |chars| - 1 ==> chars[..|chars| - 1][k] == chars[k];
      assert Acceptable(chars[|chars| - 1], known);
      m[last.uuid.value := last]
  }

  /** What `find_characteristics` decides about a service. */
  function CharacteristicsVerdict(service: RemoteService, known: seq<Uuid>): Search<map<Uuid, RemoteCharacteristic>>
  {
    match service.characteristics
    case QueryFailed => Failed
    case Answer(chars) =>
      match FirstBad(chars, known)
      case Some(i) => if chars[i].uuid.QueryFailed? then Failed else NotFound
      case None =>
        var m := Collected(chars, known);
        if |m| != |known| then NotFound else Found(m)
  }

  /** The elements of a sequence. */
  function Elems(s: seq<Uuid>): (e: set<Uuid>)
    ensures forall x :: x in e <==> x in s
  {
    if s == [] then {} else Elems(s[..|s| - 1]) + {s[|s| - 1]}
  }

  predicate NoDuplicates(s: seq<Uuid>)
  {
    forall i, j :: 0 <= i < j < |s| ==> s[i] != s[j]
  }

  lemma {:induction false} ElemsCard(s: seq<Uuid>)
    ensures |Elems(s)| <= |s|
    ensures |Elems(s)| == |s| <==> NoDuplicates(s)
  {
    if s != [] {
      var init := s[..|s| - 1];
      var last := s[|s| - 1];
      ElemsCard(init);
      assert Elems(s) == Elems(init) + {last};
      if last in init {
        RepeatedLast(s);
        assert Elems(s) == Elems(init);
      } else {
        assert last !in Elems(init);
        NoDuplicatesExtend(s);
      }
    }
  }

  /** A last element that already occurs earlier is a duplicate. */
  lemma RepeatedLast(s: seq<Uuid>)
    requires s != [] && s[|s| - 1] in s[..|s| - 1]
    ensures !NoDuplicates(s)
  {
  }

  /** A new last element keeps a sequence free of duplicates, and only then. */
  lemma NoDuplicatesExtend(s: seq<Uuid>)
    requires s != [] && s[|s| - 1] !in s[..|s| - 1]
    ensures NoDuplicates(s) <==> NoDuplicates(s[..|s| - 1])
  {
  }

  lemma {:induction false} SubsetCard(a: set<Uuid>, b: set<Uuid>)
    requires a <= b
    ensures |a| <= |b|
    ensures |a| == |b| ==> a == b
    decreases |b|
  {
    if a != {} {
      var x :| x in a;
      SubsetCard(a - {x}, b - {x});
      if |a| == |b| {
        assert a - {x} == b - {x};
        assert a == (a - {x}) + {x} && b == (b - {x}) + {x};
      }
    }
  }

  /** The first characteristic whose UUID is unreadable or unknown decides, however many
      characteristics before it matched: an unreadable UUID is an error, an unknown one
      rejects the service. */
  lemma FirstBadCharacteristicDecides(service: RemoteService, known: seq<Uuid>, i: nat)
    requires service.characteristics.Answer? && i < |service.characteristics.value|
    requires var chars := service.characteristics.value;
             && !Acceptable(chars[i], known)
             && forall k :: 0 <= k < i ==> Acceptable(chars[k], known)
    ensures CharacteristicsVerdict(service, known)
            == if service.characteristics.value[i].uuid.QueryFailed? then Failed else NotFound
  {
  }

  /** When every UUID is read and known, the service matches exactly when the map has as
      many keys as the descriptor lists UUIDs. */
  lemma AllAcceptableDecides(service: RemoteService, known: seq<Uuid>)
    requires service.characteristics.Answer?
    requires forall k :: 0 <= k < |service.characteristics.value| ==>
               Acceptable(service.characteristics.value[k], known)
    ensures var m := Collected(service.characteristics.value, known);
            CharacteristicsVerdict(service, known) == if |m| != |known| then NotFound else Found(m)
  {
  }

  lemma CollectedStep(chars: seq<RemoteCharacteristic>, known: seq<Uuid>, i: nat)
    requires i < |chars| && forall k :: 0 <= k <= i ==> Acceptable(chars[k], known)
    ensures Collected(chars[..i + 1], known) == Collected(chars[..i], known)[chars[i].uuid.value := chars[i]]
  {
    assert chars[..i + 1][..i] == chars[..i];
  }

  /** A service matches exactly when every characteristic's UUID is read and known, and
      as many distinct UUIDs were read as the descriptor lists. The map returned then
      holds only descriptor UUIDs, and, when the descriptor lists no UUID twice, exactly
      the descriptor's UUIDs. */
  lemma MatchIffComplete(service: RemoteService, known: seq<Uuid>)
    ensures var v := CharacteristicsVerdict(service, known);
      && (v.Found? <==>
            && service.characteristics.Answer?
            && (forall k :: 0 <= k < |service.characteristics.value| ==>
                  Acceptable(service.characteristics.value[k], known))
            && |Collected(service.characteristics.value, known)| == |known|)
      && (v.Found? ==> forall u :: u in v.value ==> u in known)
      && (v.Found? && NoDuplicates(known) ==> forall u :: u in v.value <==> u in known)
  {
    var v := CharacteristicsVerdict(service, known);
    if v.Found? {
      var chars := service.characteristics.value;
      assert FirstBad(chars, known).None?;
      var m := v.value;
      assert m.Keys <= Elems(known) by {
        forall u | u in m
          ensures u in Elems(known)
        {
          var k :| 0 <= k < |chars| && chars[k].uuid == Answer(u);
          assert Acceptable(chars[k], known);
        }
      }
      if NoDuplicates(known) {
        ElemsCard(known);
        SubsetCard(m.Keys, Elems(known));
      }
    }
  }

  /** A descriptor that lists a UUID twice never matches: the map has at most as many
      keys as the descriptor has distinct UUIDs, which is fewer than its length. */
  lemma DuplicatesNeverMatch(service: RemoteService, known: seq<Uuid>)
    requires !NoDuplicates(known)
    ensures !CharacteristicsVerdict(service, known).Found?
  {
    var v := CharacteristicsVerdict(service, known);
    if v.Found? {
      MatchIffComplete(service, known);
      ElemsCard(known);
      assert v.value.Keys <= Elems(known);
      SubsetCard(v.value.Keys, Elems(known));
    }
  }

  /** Where the discovery stands. */
  datatype Status = Searching | Matched | Aborted

  /** The client's fields, the stack calls made so far, and where the discovery stands. */
  datatype Discovery = Discovery(
    service: Option<RemoteService>,
    characteristics: map<Uuid, RemoteCharacteristic>,
    calls: seq<StackCall>,
    status: Status)

  /** How the handling of an added device ends: it matches (and the loop breaks), the
      `is_connected()` check after the search fails (and the error ends the discovery),
      or the loop goes on. */
  function DeviceOutcome(d: Device, desc: ApplicationDescriptor, devicesToBePaired: seq<string>): Status
  {
    var search := FindServiceSpec(d, desc.serviceUuid, devicesToBePaired);
    if search.result.Found? && CharacteristicsVerdict(search.result.value, desc.characteristicsUuids).Found? then
      Matched
    else if d.connectedAfterSearch.QueryFailed? then Aborted
    else Searching
  }

  /** One added device: search for the service and its characteristics; on a full match
      store both and stop; otherwise remove a device whose search failed and disconnect a
      device that is still connected. */
  function HandleDevice(st: Discovery, d: Device, desc: ApplicationDescriptor, devicesToBePaired: seq<string>): Discovery
  {
    var search := FindServiceSpec(d, desc.serviceUuid, devicesToBePaired);
    var calls := st.calls + search.calls;
    var verdict := if search.result.Found? then CharacteristicsVerdict(search.result.value, desc.characteristicsUuids)
                   else NotFound;
    if search.result.Found? && verdict.Found? then
      Discovery(Some(search.result.value), verdict.value, calls, Matched)
    else
      var failed := search.result.Failed? || verdict.Failed?;
      var afterFailure := if failed then calls + [RemoveDevice(d.address)] else calls;
      match d.connectedAfterSearch
      case QueryFailed => st.(calls := afterFailure, status := Aborted)
      case Answer(connected) =>
        st.(calls := if connected then afterFailure + [Disconnect(d.address)] else afterFailure)
  }

  /** One adapter event; removals and property changes change nothing. */
  function HandleEvent(st: Discovery, e: AdapterEvent, desc: ApplicationDescriptor, devicesToBePaired: seq<string>): Discovery
  {
    match e
    case DeviceAdded(d) => HandleDevice(st, d, desc, devicesToBePaired)
    case _ => st
  }

  /** The discovery loop from the `i`-th event on, until a device matches, an error ends
      it, or the event stream ends. */
  function Discover(events: seq<AdapterEvent>, i: nat, st: Discovery, desc: ApplicationDescriptor,
                    devicesToBePaired: seq<string>): Discovery
    requires i <= |events|
    decreases |events| - i
  {
    if i == |events| || st.status != Searching then st
    else Discover(events, i + 1, HandleEvent(st, events[i], desc, devicesToBePaired), desc, devicesToBePaired)
  }

  /** An event that ends the discovery. */
  predicate Decisive(e: AdapterEvent, desc: ApplicationDescriptor, devicesToBePaired: seq<string>)
  {
    e.DeviceAdded? && DeviceOutcome(e.device, desc, devicesToBePaired) != Searching
  }

  lemma HandleDeviceOutcome(st: Discovery, d: Device, desc: ApplicationDescriptor, devicesToBePaired: seq<string>)
    ensures var r := HandleDevice(st, d, desc, devicesToBePaired);
      && r.status == (if DeviceOutcome(d, desc, devicesToBePaired) == Searching then st.status
                      else DeviceOutcome(d, desc, devicesToBePaired))
      && (r.status != Matched ==> r.service == st.service && r.characteristics == st.characteristics)
  {
  }

  /** The service and map of a device that matches. */
  function MatchedService(d: Device, desc: ApplicationDescriptor, devicesToBePaired: seq<string>): RemoteService
    requires DeviceOutcome(d, desc, devicesToBePaired) == Matched
  {
    FindServiceSpec(d, desc.serviceUuid, devicesToBePaired).result.value
  }

  function MatchedCharacteristics(d: Device, desc: ApplicationDescriptor, devicesToBePaired: seq<string>): map<Uuid, RemoteCharacteristic>
    requires DeviceOutcome(d, desc, devicesToBePaired) == Matched
  {
    CharacteristicsVerdict(MatchedService(d, desc, devicesToBePaired), desc.characteristicsUuids).value
  }

  /** The discovery stops at the first device that matches, when nothing before it ended
      the discovery, and stores exactly that device's service and characteristic map. */
  lemma {:induction false} DiscoverStopsAtFirstMatch(events: seq<AdapterEvent>, i: nat, st: Discovery,
      desc: ApplicationDescriptor, devicesToBePaired: seq<string>, j: nat)
    requires st.status == Searching && i <= j < |events|
    requires events[j].DeviceAdded? && DeviceOutcome(events[j].device, desc, devicesToBePaired) == Matched
    requires forall k :: i <= k < j ==> !Decisive(events[k], desc, devicesToBePaired)
    ensures var r := Discover(events, i, st, desc, devicesToBePaired);
      && r.status == Matched
      && r.service == Some(MatchedService(events[j].device, desc, devicesToBePaired))
      && r.characteristics == MatchedCharacteristics(events[j].device, desc, devicesToBePaired)
    decreases j - i
  {
    var next := HandleEvent(st, events[i], desc, devicesToBePaired);
    if events[i].DeviceAdded? {
      HandleDeviceOutcome(st, events[i].device, desc, devicesToBePaired);
    }
    if i < j {
      assert !Decisive(events[i], desc, devicesToBePaired);
      DiscoverStopsAtFirstMatch(events, i + 1, next, desc, devicesToBePaired, j);
    }
  }

  /** Conversely, a discovery that ends matched was ended by a device that matched, with
      nothing decisive before it; one that does not end matched leaves the service and
      the map as they were. */
  lemma {:induction false} DiscoverMatchedHasCause(events: seq<AdapterEvent>, i: nat, st: Discovery,
      desc: ApplicationDescriptor, devicesToBePaired: seq<string>)
    requires st.status == Searching && i <= |events|
    ensures var r := Discover(events, i, st, desc, devicesToBePaired);
      && (r.status == Matched ==>
            exists j :: i <= j < |events| && events[j].DeviceAdded?
                     && DeviceOutcome(events[j].device, desc, devicesToBePaired) == Matched
                     && (forall k :: i <= k < j ==> !Decisive(events[k], desc, devicesToBePaired))
                     && r.service == Some(MatchedService(events[j].device, desc, devicesToBePaired)))
      && (r.status != Matched ==> r.service == st.service && r.characteristics == st.characteristics)
    decreases |events| - i
  {
    if i < |events| {
      var next := HandleEvent(st, events[i], desc, devicesToBePaired);
      var r := Discover(events, i, st, desc, devicesToBePaired);
      if events[i].DeviceAdded? {
        HandleDeviceOutcome(st, events[i].device, desc, devicesToBePaired);
      }
      if next.status == Searching {
        assert !Decisive(events[i], desc, devicesToBePaired);
        DiscoverMatchedHasCause(events, i + 1, next, desc, devicesToBePaired);
        if r.status == Matched {
          var j :| i + 1 <= j < |events| && events[j].DeviceAdded?
                   && DeviceOutcome(events[j].device, desc, devicesToBePaired) == Matched
                   && (forall k :: i + 1 <= k < j ==> !Decisive(events[k], desc, devicesToBePaired))
                   && r.service == Some(MatchedService(events[j].device, desc, devicesToBePaired));
          assert forall k :: i <= k < j ==> !Decisive(events[k], desc, devicesToBePaired);
        }
      } else {
        assert Discover(events, i + 1, next, desc, devicesToBePaired) == next;
        assert r == next;
        if r.status == Matched {
          assert Decisive(events[i], desc, devicesToBePaired);
        }
      }
    }
  }

  /** The device that matches is neither removed nor disconnected: its only stack calls
      are those of pairing and connecting. */
  lemma MatchedDeviceStaysConnected(st: Discovery, d: Device, desc: ApplicationDescriptor, devicesToBePaired: seq<string>)
    requires DeviceOutcome(d, desc, devicesToBePaired) == Matched
    ensures var r := HandleDevice(st, d, desc, devicesToBePaired);
      && |r.calls| >= |st.calls| && r.calls[..|st.calls|] == st.calls
      && forall k :: |st.calls| <= k < |r.calls| ==> r.calls[k].Pair? || r.calls[k].Connect?
  {
  }

  /** A search that finds a service made only pairing and connection calls. */
  lemma SearchCallsPairOrConnect(d: Device, serviceUuid: Uuid, devicesToBePaired: seq<string>)
    requires FindServiceSpec(d, serviceUuid, devicesToBePaired).result.Found?
    ensures var calls := FindServiceSpec(d, serviceUuid, devicesToBePaired).calls;
      forall k :: 0 <= k < |calls| ==> calls[k] == Pair(d.address) || calls[k] == Connect(d.address)
  {
  }

  /** A device whose search fails is removed from the adapter, and then disconnected if
      it is still connected; the discovery goes on unless the connection check fails. */
  lemma FailedDeviceRemoved(st: Discovery, d: Device, desc: ApplicationDescriptor, devicesToBePaired: seq<string>)
    requires var search := FindServiceSpec(d, desc.serviceUuid, devicesToBePaired);
      || search.result.Failed?
      || (search.result.Found? && CharacteristicsVerdict(search.result.value, desc.characteristicsUuids).Failed?)
    ensures var search := FindServiceSpec(d, desc.serviceUuid, devicesToBePaired);
      var r := HandleDevice(st, d, desc, devicesToBePaired);
      var n := |st.calls| + |search.calls|;
      && |r.calls| > n && r.calls[n] == RemoveDevice(d.address)
      && (d.connectedAfterSearch == Answer(true) ==> r.calls == st.calls + search.calls + [RemoveDevice(d.address), Disconnect(d.address)])
      && (d.connectedAfterSearch == Answer(false) ==> r.calls == st.calls + search.calls + [RemoveDevice(d.address)])
      && r.status == (if d.connectedAfterSearch.QueryFailed? then Aborted else st.status)
      && r.service == st.service
  {
  }

  /** A device that neither matches nor fails is not removed: the discovery goes on after
      disconnecting it if it is still connected, and stops only when the connection
      check fails. */
  lemma UnmatchedDeviceDisconnected(st: Discovery, d: Device, desc: ApplicationDescriptor, devicesToBePaired: seq<string>)
    requires var search := FindServiceSpec(d, desc.serviceUuid, devicesToBePaired);
      || search.result.NotFound?
      || (search.result.Found? && CharacteristicsVerdict(search.result.value, desc.characteristicsUuids).NotFound?)
    ensures var search := FindServiceSpec(d, desc.serviceUuid, devicesToBePaired);
      var r := HandleDevice(st, d, desc, devicesToBePaired);
      && (d.connectedAfterSearch == Answer(true) ==> r.calls == st.calls + search.calls + [Disconnect(d.address)])
      && (d.connectedAfterSearch == Answer(false) ==> r.calls == st.calls + search.calls)
      && r.status == (if d.connectedAfterSearch.QueryFailed? then Aborted else st.status)
      && r.service == st.service && r.characteristics == st.characteristics
  {
  }

  /** A `DeviceRemoved` event, and any other event but an added device, changes nothing. */
  lemma OtherEventsChangeNothing(st: Discovery, e: AdapterEvent, desc: ApplicationDescriptor, devicesToBePaired: seq<string>)
    requires !e.DeviceAdded?
    ensures HandleEvent(st, e, desc, devicesToBePaired) == st
  {
  }

  /** Pairing: `pair()` is called only for a listed alias whose device says it is not
      paired, at most 1 + 5 times, stopping at the first success; the preparation fails
      only when the paired state cannot be read or all six attempts fail. */
  lemma PairingOnlyWhenNeeded(d: Device, devicesToBePaired: seq<string>)
    ensures var e := PrepareSpec(d, devicesToBePaired);
      && (e.calls != [] ==> NeedPair(d, devicesToBePaired) && d.paired == Answer(false))
      && |e.calls| <= PAIR_RETRIES + 1
      && (forall k :: 0 <= k < |e.calls| ==> e.calls[k] == Pair(d.address))
      && (forall k :: 0 <= k < |e.calls| - 1 ==> !Succeeds(d.pairOutcomes, k))
      && (e.ok <==>
            || !NeedPair(d, devicesToBePaired)
            || d.paired == Answer(true)
            || (d.paired == Answer(false) && exists k :: 0 <= k <= PAIR_RETRIES && Succeeds(d.pairOutcomes, k)))
      && (!e.ok && d.paired == Answer(false) ==> |e.calls| == PAIR_RETRIES + 1)
  {
  }

  /** Connecting: `connect()` is called only when the device says it is not connected, at
      most 1 + 2 times, stopping at the first success; it fails only when the connected
      state cannot be read or all three attempts fail. */
  lemma ConnectRetries(d: Device)
    ensures var e := ConnectSpec(d);
      && (e.calls != [] ==> d.connected == Answer(false))
      && |e.calls| <= CONNECT_RETRIES + 1
      && (forall k :: 0 <= k < |e.calls| ==> e.calls[k] == Connect(d.address))
      && (forall k :: 0 <= k < |e.calls| - 1 ==> !Succeeds(d.connectOutcomes, k))
      && (e.ok <==>
            || d.connected == Answer(true)
            || (d.connected == Answer(false) && exists k :: 0 <= k <= CONNECT_RETRIES && Succeeds(d.connectOutcomes, k)))
      && (!e.ok && d.connected == Answer(false) ==> |e.calls| == CONNECT_RETRIES + 1)
  {
  }

  /** `find_application_service` connects only when the preparation succeeded and the
      device advertises the service UUID; the service it returns is the first with that
      UUID; a device that does not advertise it is disconnected and yields nothing. */
  lemma ServiceSearchConnectsOnlyIfAdvertised(d: Device, serviceUuid: Uuid, devicesToBePaired: seq<string>)
    ensures var s := FindServiceSpec(d, serviceUuid, devicesToBePaired);
      var prep := PrepareSpec(d, devicesToBePaired);
      && (Connect(d.address) in s.calls ==>
            && prep.ok && d.advertised.Answer? && d.advertised.value.Some?
            && serviceUuid in d.advertised.value.value)
      && (s.result.Found? ==>
            && d.services.Answer?
            && exists i :: 0 <= i < |d.services.value| && d.services.value[i] == s.result.value
                        && s.result.value.uuid == Answer(serviceUuid)
                        && forall k :: 0 <= k < i ==> d.services.value[k].uuid != Answer(serviceUuid))
      && (prep.ok && d.advertised.Answer? &&
          !(d.advertised.value.Some? && serviceUuid in d.advertised.value.value) ==>
            s == ServiceSearch(NotFound, prep.calls + [Disconnect(d.address)]))
  {
  }

  class ApplicationClient {
    /** The application's descriptor. */
    const descriptor: ApplicationDescriptor
    /** The aliases of the devices that must be paired before their services are read. */
    const devicesToBePaired: seq<string>
    var service: Option<RemoteService>
    var characteristics: map<Uuid, RemoteCharacteristic>
    /** The stack calls made so far. */
    var calls: seq<StackCall>

    /** `ApplicationClient::new`, once the adapter manager exists. */
    constructor(descriptor: ApplicationDescriptor, devicesToBePaired: seq<string>)
      ensures this.descriptor == descriptor && this.devicesToBePaired == devicesToBePaired
      ensures service == None && characteristics == map[] && calls == []
    {
      this.descriptor := descriptor;
      this.devicesToBePaired := devicesToBePaired;
      service := None;
      characteristics := map[];
      calls := [];
    }

    /** The retry loop of `device_pair` and `device_connect`: `call` is made until it
        succeeds or the retries are exhausted. */
    method Retry(outcomes: seq<bool>, retries: nat, call: StackCall) returns (ok: bool)
      modifies this`calls
      ensures var r := RetryFrom(outcomes, 0, retries);
              ok == r.0 && calls == old(calls) + Repeat(call, r.1)
    {
      var left := retries;
      var attempts: nat := 0;
      while true
        invariant RetryFrom(outcomes, attempts, left) == RetryFrom(outcomes, 0, retries)
        invariant calls == old(calls) + Repeat(call, attempts)
        decreases left
      {
        calls := calls + [call];
        assert Repeat(call, attempts) + [call] == Repeat(call, attempts + 1);
        if Succeeds(outcomes, attempts) {
          return true;
        } else if left > 0 {
          left := left - 1;
          attempts := attempts + 1;
        } else {
          return false;
        }
      }
    }

    /** `device_pair`. */
    method DevicePair(d: Device) returns (ok: bool)
      modifies this`calls
      ensures ok == PairSpec(d).ok && calls == old(calls) + PairSpec(d).calls
    {
      match d.paired {
        case QueryFailed =>
          return false;
        case Answer(paired) =>
          if !paired {
            ok := Retry(d.pairOutcomes, PAIR_RETRIES, Pair(d.address));
            return;
          }
      }
      ok := true;
    }

    /** `device_connect`. */
    method DeviceConnect(d: Device) returns (ok: bool)
      modifies this`calls
      ensures ok == ConnectSpec(d).ok && calls == old(calls) + ConnectSpec(d).calls
    {
      match d.connected {
        case QueryFailed =>
          return false;
        case Answer(connected) =>
          if !connected {
            ok := Retry(d.connectOutcomes, CONNECT_RETRIES, Connect(d.address));
            return;
          }
      }
      ok := true;
    }

    /** `device_prepare_for_discovering`. */
    method DevicePrepareForDiscovering(d: Device) returns (ok: bool)
      modifies this`calls
      ensures ok == PrepareSpec(d, devicesToBePaired).ok
      ensures calls == old(calls) + PrepareSpec(d, devicesToBePaired).calls
    {
      if NeedPair(d, devicesToBePaired) {
        ok := DevicePair(d);
        if !ok {
          return;
        }
      }
      ok := true;
    }

    /** `find_application_service`. */
    method FindApplicationService(d: Device) returns (r: Search<RemoteService>)
      modifies this`calls
      ensures r == FindServiceSpec(d, descriptor.serviceUuid, devicesToBePaired).result
      ensures calls == old(calls) + FindServiceSpec(d, descriptor.serviceUuid, devicesToBePaired).calls
    {
      var prepared := DevicePrepareForDiscovering(d);
      if !prepared {
        return Failed;
      }
      if d.advertised.QueryFailed? {
        return Failed;
      }
      var uuids := if d.advertised.value.Some? then d.advertised.value.value else [];
      if descriptor.serviceUuid in uuids {
        var connected := DeviceConnect(d);
        if !connected {
          return Failed;
        }
        if d.services.QueryFailed? {
          return Failed;
        }
        var services := d.services.value;
        for i := 0 to |services|
          invariant forall k :: 0 <= k < i ==> services[k].uuid.Answer? && services[k].uuid.value != descriptor.serviceUuid
        {
          if services[i].uuid.QueryFailed? {
            return Failed;
          }
          if services[i].uuid.value == descriptor.serviceUuid {
            return Found(services[i]);
          }
        }
        return NotFound;
      } else {
        calls := calls + [Disconnect(d.address)];
      }
      return NotFound;
    }

    /** `find_characteristics`. The map is filled while every UUID is known, and
        cleared before an unknown UUID is reported. */
    method FindCharacteristics(service: RemoteService) returns (r: Search<map<Uuid, RemoteCharacteristic>>)
      ensures r == CharacteristicsVerdict(service, descriptor.characteristicsUuids)
    {
      var known := descriptor.characteristicsUuids;
      if service.characteristics.QueryFailed? {
        return Failed;
      }
      var chars := service.characteristics.value;
      var m: map<Uuid, RemoteCharacteristic> := map[];
      for i := 0 to |chars|
        invariant forall k :: 0 <= k < i ==> Acceptable(chars[k], known)
        invariant m == Collected(chars[..i], known)
      {
        if chars[i].uuid.QueryFailed? {
          FirstBadCharacteristicDecides(service, known, i);
          return Failed;
        }
        var uuid := chars[i].uuid.value;
        if uuid in known {
          CollectedStep(chars, known, i);
          m := m[uuid := chars[i]];
        } else {
          m := map[];
          FirstBadCharacteristicDecides(service, known, i);
          return NotFound;
        }
      }
      assert chars[..|chars|] == chars;
      AllAcceptableDecides(service, known);
      if |m| != |known| {
        return NotFound;
      }
      return Found(m);
    }

    /** `discover_service`, over the adapter's device events. It returns `false` for the
        error of the connection check after a search. */
    method DiscoverService(events: seq<AdapterEvent>) returns (ok: bool)
      modifies this`service, this`characteristics, this`calls
      ensures var r := Discover(events, 0, Discovery(old(service), old(characteristics), old(calls), Searching),
                                descriptor, devicesToBePaired);
              && service == r.service && characteristics == r.characteristics && calls == r.calls
              && (ok <==> r.status != Aborted)
    {
      var i := 0;
      while i < |events|
        invariant i <= |events|
        invariant Discover(events, i, Discovery(service, characteristics, calls, Searching), descriptor, devicesToBePaired)
                  == Discover(events, 0, Discovery(old(service), old(characteristics), old(calls), Searching),
                              descriptor, devicesToBePaired)
      {
        ghost var before := Discovery(service, characteristics, calls, Searching);
        match events[i] {
          case DeviceAdded(d) =>
            var found := FindApplicationService(d);
            var failed := false;
            match found {
              case Found(s) =>
                var matched := FindCharacteristics(s);
                match matched {
                  case Found(m) =>
                    service := Some(s);
                    characteristics := m;
                    return true;
                  case NotFound =>
                  case Failed =>
                    failed := true;
                }
              case NotFound =>
              case Failed =>
                failed := true;
            }
            if failed {
              calls := calls + [RemoveDevice(d.address)];
            }
            if d.connectedAfterSearch.QueryFailed? {
              return false;
            }
            if d.connectedAfterSearch.value {
              calls := calls + [Disconnect(d.address)];
            }
            assert HandleDevice(before, d, descriptor, devicesToBePaired)
                   == Discovery(service, characteristics, calls, Searching);
          case DeviceRemoved(_) =>
          case PropertyChanged =>
        }
        i := i + 1;
      }
      return true;
    }

    /** `exercise_characteristics`: the map handed to the application's own exercise, or
        nothing when no service was found. */
    method ExerciseCharacteristics() returns (exercised: Option<map<Uuid, RemoteCharacteristic>>)
      ensures exercised.Some? <==> service.Some?
      ensures exercised.Some? ==> exercised.value == characteristics
    {
      if service.Some? {
        return Some(characteristics);
      }
      return None;
    }
  }
}
