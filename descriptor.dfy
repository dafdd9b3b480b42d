/**
 * The application descriptor of blt/src/application_descriptor.rs: a service
 * UUID and name, the characteristic UUIDs, and per characteristic an optional
 * read, write and notify configuration; and its conversion into the GATT
 * application that is handed to the stack.
 */
module Descriptor {
  import opened Common

  /** A Bluetooth UUID. */
  type Uuid = nat

  /** How a written value reaches the application: a callback or an IO stream. */
  datatype WriteMethod = WriteFun | WriteIo

  /** How notifications are produced: a callback or an IO stream. */
  datatype NotifyMethod = NotifyFun | NotifyIo

  /** bluer's `CharacteristicRead`: reads allowed, and whether a read callback is installed. */
  datatype CharacteristicRead = CharacteristicRead(read: bool, hasCallback: bool)

  /** bluer's `CharacteristicWrite`, with the fields the applications set. */
  datatype CharacteristicWrite = CharacteristicWrite(write: bool, writeWithoutResponse: bool, delivery: WriteMethod)

  /** bluer's `CharacteristicNotify`, with the fields the applications set. */
  datatype CharacteristicNotify = CharacteristicNotify(notify: bool, delivery: NotifyMethod)

  /** `CharacteristicWrite::default()`: nothing enabled, callback method. */
  const WRITE_DEFAULTS: CharacteristicWrite := CharacteristicWrite(false, false, WriteFun)

  /** `CharacteristicNotify::default()`: nothing enabled, callback method. */
  const NOTIFY_DEFAULTS: CharacteristicNotify := CharacteristicNotify(false, NotifyFun)

  datatype ApplicationDescriptor = ApplicationDescriptor(
    serviceUuid: Uuid,
    serviceName: string,
    characteristicsUuids: seq<Uuid>,
    readFunctions: seq<Option<CharacteristicRead>>,
    writeFunctions: seq<Option<CharacteristicWrite>>,
    notifyFunctions: seq<Option<CharacteristicNotify>>)
  {
    function ServiceUuid(): Uuid
    {
      serviceUuid
    }

    function ServiceName(): string
    {
      serviceName
    }

    function CharacteristicsUuids(): seq<Uuid>
    {
      characteristicsUuids
    }
  }

  /** `ApplicationDescriptor::new`: the getters give back what was passed. */
  function New(
    serviceUuid: Uuid,
    serviceName: string,
    characteristicsUuids: seq<Uuid>,
    readFunctions: seq<Option<CharacteristicRead>>,
    writeFunctions: seq<Option<CharacteristicWrite>>,
    notifyFunctions: seq<Option<CharacteristicNotify>>): (d: ApplicationDescriptor)
    ensures d.ServiceUuid() == serviceUuid
    ensures d.ServiceName() == serviceName
    ensures d.CharacteristicsUuids() == characteristicsUuids
    ensures d.readFunctions == readFunctions && d.writeFunctions == writeFunctions
    ensures d.notifyFunctions == notifyFunctions
  {
    ApplicationDescriptor(serviceUuid, serviceName, characteristicsUuids,
                          readFunctions, writeFunctions, notifyFunctions)
  }

  /** `default_reade` (spelled so in its definition): no read configuration. */
  function DefaultReade(): (r: Option<CharacteristicRead>)
    ensures r.None?
  {
    None
  }

  /** `default_write`: write without response, delivered through an IO stream. */
  function DefaultWrite(): (r: Option<CharacteristicWrite>)
    ensures r.Some? && r.value.writeWithoutResponse && !r.value.write && r.value.delivery == WriteIo
  {
    Some(WRITE_DEFAULTS.(writeWithoutResponse := true, delivery := WriteIo))
  }

  /** `default_notify`: notifications enabled, produced through an IO stream. */
  function DefaultNotify(): (r: Option<CharacteristicNotify>)
    ensures r.Some? && r.value.notify && r.value.delivery == NotifyIo
  {
    Some(NOTIFY_DEFAULTS.(notify := true, delivery := NotifyIo))
  }

  /** `default_descriptor`: one empty (`None`) read, write and notify entry per
      characteristic UUID, pushed in a loop. */
  method DefaultDescriptor(serviceUuid: Uuid, serviceName: string, characteristicsUuids: seq<Uuid>)
    returns (d: ApplicationDescriptor)
    ensures d.ServiceUuid() == serviceUuid && d.ServiceName() == serviceName
    ensures d.CharacteristicsUuids() == characteristicsUuids
    ensures |d.readFunctions| == |d.writeFunctions| == |d.notifyFunctions| == |characteristicsUuids|
    ensures forall i :: 0 <= i < |characteristicsUuids| ==>
              d.readFunctions[i].None? && d.writeFunctions[i].None? && d.notifyFunctions[i].None?
  {
    var readFunctions: seq<Option<CharacteristicRead>> := [];
    var writeFunctions: seq<Option<CharacteristicWrite>> := [];
    var notifyFunctions: seq<Option<CharacteristicNotify>> := [];
    for k := 0 to |characteristicsUuids|
      invariant |readFunctions| == |writeFunctions| == |notifyFunctions| == k
      invariant forall i :: 0 <= i < k ==>
                  readFunctions[i].None? && writeFunctions[i].None? && notifyFunctions[i].None?
    {
      readFunctions := readFunctions + [None];
      writeFunctions := writeFunctions + [None];
      notifyFunctions := notifyFunctions + [None];
    }
    d := New(serviceUuid, serviceName, characteristicsUuids,
             readFunctions, writeFunctions, notifyFunctions);
  }

  /** The receiving half of the k-th pair made by `characteristic_control()`. */
  datatype CharacteristicControl = CharacteristicControl(pair: nat)

  /** The handle half of the k-th pair made by `characteristic_control()`. */
  datatype CharacteristicControlHandle = CharacteristicControlHandle(pair: nat)

  /** bluer's local `Characteristic`. */
  datatype Characteristic = Characteristic(
    uuid: Uuid,
    read: Option<CharacteristicRead>,
    write: Option<CharacteristicWrite>,
    notify: Option<CharacteristicNotify>,
    controlHandle: CharacteristicControlHandle)

  /** bluer's local `Service`. */
  datatype Service = Service(uuid: Uuid, primary: bool, characteristics: seq<Characteristic>)

  /** bluer's local `Application`. */
  datatype Application = Application(services: seq<Service>)

  /** The GATT application built by the conversion: the application definition, the
      control halves, and the descriptor (emptied of the entries the conversion popped). */
  datatype GattApplication = GattApplication(
    application: Application,
    characteristicsControls: seq<CharacteristicControl>,
    descriptor: ApplicationDescriptor)

  function Reversed<T>(s: seq<T>): (r: seq<T>)
    ensures |r| == |s|
    ensures forall i :: 0 <= i < |s| ==> r[i] == s[|s| - 1 - i]
  {
    seq(|s|, i requires 0 <= i < |s| => s[|s| - 1 - i])
  }

  /** `From<ApplicationDescriptor> for GattApplication`. Characteristic i gets the
      control handle of pair i (the handles are reversed and then popped), while its
      read, write and notify entries are popped from the end of their vectors, so it
      gets those at index (length - 1 - i). The `unwrap`s of the pops require each
      vector to hold at least one entry per UUID. */
  method FromDescriptor(d: ApplicationDescriptor) returns (g: GattApplication)
    requires |d.characteristicsUuids| <= |d.readFunctions|
    requires |d.characteristicsUuids| <= |d.writeFunctions|
    requires |d.characteristicsUuids| <= |d.notifyFunctions|
    ensures g.characteristicsControls ==
              seq(|d.characteristicsUuids|, k requires k >= 0 => CharacteristicControl(k))
    ensures |g.application.services| == 1
    ensures g.application.services[0].uuid == d.serviceUuid && g.application.services[0].primary
    ensures var cs := g.application.services[0].characteristics;
            && |cs| == |d.characteristicsUuids|
            && forall i :: 0 <= i < |cs| ==>
                 && cs[i].uuid == d.characteristicsUuids[i]
                 && cs[i].read == d.readFunctions[|d.readFunctions| - 1 - i]
                 && cs[i].write == d.writeFunctions[|d.writeFunctions| - 1 - i]
                 && cs[i].notify == d.notifyFunctions[|d.notifyFunctions| - 1 - i]
                 && cs[i].controlHandle == CharacteristicControlHandle(i)
                 && cs[i].controlHandle.pair == g.characteristicsControls[i].pair
    ensures var n := |d.characteristicsUuids|;
            g.descriptor == d.(readFunctions := d.readFunctions[..|d.readFunctions| - n],
                               writeFunctions := d.writeFunctions[..|d.writeFunctions| - n],
                               notifyFunctions := d.notifyFunctions[..|d.notifyFunctions| - n])
  {
    var n := |d.characteristicsUuids|;
    var handles: seq<CharacteristicControlHandle> := [];
    var controls: seq<CharacteristicControl> := [];
    for k := 0 to n
      invariant handles == seq(k, j requires j >= 0 => CharacteristicControlHandle(j))
      invariant controls == seq(k, j requires j >= 0 => CharacteristicControl(j))
    {
      var control, handle := CharacteristicControl(k), CharacteristicControlHandle(k);
      handles := handles + [handle];
      controls := controls + [control];
    }
    handles := Reversed(handles);

    var readFunctions, writeFunctions, notifyFunctions :=
      d.readFunctions, d.writeFunctions, d.notifyFunctions;
    var characteristics: seq<Characteristic> := [];
    for i := 0 to n
      invariant readFunctions == d.readFunctions[..|d.readFunctions| - i]
      invariant writeFunctions == d.writeFunctions[..|d.writeFunctions| - i]
      invariant notifyFunctions == d.notifyFunctions[..|d.notifyFunctions| - i]
      invariant handles == seq(n - i, j requires 0 <= j < n - i => CharacteristicControlHandle(n - 1 - j))
      invariant |characteristics| == i
      invariant forall j :: 0 <= j < i ==>
                  characteristics[j] == Characteristic(
                    d.characteristicsUuids[j],
                    d.readFunctions[|d.readFunctions| - 1 - j],
                    d.writeFunctions[|d.writeFunctions| - 1 - j],
                    d.notifyFunctions[|d.notifyFunctions| - 1 - j],
                    CharacteristicControlHandle(j))
    {
      var read := readFunctions[|readFunctions| - 1];
      readFunctions := readFunctions[..|readFunctions| - 1];
      var write := writeFunctions[|writeFunctions| - 1];
      writeFunctions := writeFunctions[..|writeFunctions| - 1];
      var notify := notifyFunctions[|notifyFunctions| - 1];
      notifyFunctions := notifyFunctions[..|notifyFunctions| - 1];
      var handle := handles[|handles| - 1];
      handles := handles[..|handles| - 1];
      characteristics := characteristics +
        [Characteristic(d.characteristicsUuids[i], read, write, notify, handle)];
    }
    g := GattApplication(
      Application([Service(d.serviceUuid, true, characteristics)]),
      controls,
      d.(readFunctions := readFunctions, writeFunctions := writeFunctions,
         notifyFunctions := notifyFunctions));
  }
}
