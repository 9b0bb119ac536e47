/** The process-wide serial port session (`IDFWebSerialPort`): at most one
    held port and the status-bar item that shows it. */
module PortManager {
  import opened JsBase
  import opened SerialDevice

  /** The port the user picked in the editor's prompt (`SerialPortInfo`). */
  datatype PortInfo = PortInfo(usbVendorId: Option<nat>, usbProductId: Option<nat>)

  /** A status-bar item: its text, and whether `show()` was called on it. */
  datatype StatusItem = StatusItem(text: string, shown: bool)

  predicate Matches(port: SerialPort, info: PortInfo) {
    port.usbVendorId == info.usbVendorId && port.usbProductId == info.usbProductId
  }

  /** The search of `getSerialPort`: the first of the granted ports whose vendor
      and product ids equal the picked ones; none when nothing was picked. */
  function FindPort(picked: Option<PortInfo>, ports: seq<SerialPort>): (r: SerialPort?)
    ensures picked.None? ==> r == null
    ensures picked.Some? && r == null ==> forall j :: 0 <= j < |ports| ==> !Matches(ports[j], picked.value)
    ensures r != null ==> picked.Some? && Matches(r, picked.value)
    ensures r != null ==>
      exists i :: 0 <= i < |ports| && ports[i] == r && (forall j :: 0 <= j < i ==> !Matches(ports[j], picked.value))
  {
    if picked.None? || ports == [] then null
    else if Matches(ports[0], picked.value) then ports[0]
    else
      var r := FindPort(picked, ports[1..]);
      assert r != null ==> forall j :: 0 <= j < |ports| && ports[j] == r ==> j == 0 || ports[1..][j - 1] == r;
      r
  }

  /** `IDF-WEB USB Port VID:<vid> - PID:<pid>` with a placeholder for a missing
      or zero id (`info.usbVendorId || "Unknown Vendor"`). */
  function IdText(id: Option<nat>, unknown: string): string {
    if id.Some? && id.value != 0 then ToDecimal(id.value) else unknown
  }

  function StatusText(port: SerialPort): string {
    "$(plug) IDF-WEB USB Port VID:" + IdText(port.usbVendorId, "Unknown Vendor")
    + " - PID:" + IdText(port.usbProductId, "Unknown Product")
  }

  const FlashingError: string := "Can't disconnect serial port while flashing."
  const ReadingError: string := "Can't disconnect serial port while reading from serial port."

  class IDFWebSerialPort {
    var instance: SerialPort?
    var statusBarItem: Option<StatusItem>
    /** How many times the user was asked to pick a port. */
    var portRequests: nat
    /** How many status-bar items were disposed. */
    var disposedItems: nat
    var errorMessages: seq<string>

    constructor ()
      ensures instance == null && statusBarItem == None
      ensures portRequests == 0 && disposedItems == 0 && errorMessages == []
    {
      instance := null;
      statusBarItem := None;
      portRequests, disposedItems, errorMessages := 0, 0, [];
    }

    /** `exists()`. */
    predicate Exists()
      reads this
    {
      instance != null
    }

    /** Requests a port only when none is held. Whenever a port is then held it
        gets a fresh status-bar item and one more disconnect listener, and it is
        what `init` returns. `picked` and `granted` are what the editor's prompt
        and `navigator.serial.getPorts()` give back. */
    method Init(picked: Option<PortInfo>, granted: seq<SerialPort>, enableStatusBarIcons: bool)
      returns (port: SerialPort?)
      modifies this,
        if instance != null then {instance}
        else if FindPort(picked, granted) != null then {FindPort(picked, granted)} else {}
      ensures old(instance) != null ==> instance == old(instance) && portRequests == old(portRequests)
      ensures old(instance) == null ==> instance == FindPort(picked, granted) && portRequests == old(portRequests) + 1
      ensures port == instance
      ensures port != null ==>
        (statusBarItem == Some(StatusItem(StatusText(port), enableStatusBarIcons))
         && port.disconnectListeners == old(port.disconnectListeners) + 1
         && port.readable == old(port.readable) && port.writable == old(port.writable)
         && port.closeCalls == old(port.closeCalls))
      ensures instance == null ==> statusBarItem == old(statusBarItem)
      ensures disposedItems == old(disposedItems) && errorMessages == old(errorMessages)
    {
      if instance == null {
        portRequests := portRequests + 1;
        instance := FindPort(picked, granted);
      }
      if instance != null {
        statusBarItem := Some(StatusItem(StatusText(instance), enableStatusBarIcons));
        instance.AddDisconnectListener();
      }
      port := instance;
    }

    /** The listener registered by `init`: the port was unplugged. */
    method OnDisconnect()
      modifies this
      ensures instance == null && statusBarItem == None && !Exists()
      ensures disposedItems == old(disposedItems) + (if old(statusBarItem).Some? then 1 else 0)
      ensures portRequests == old(portRequests) && errorMessages == old(errorMessages)
    {
      instance := null;
      if statusBarItem.Some? {
        disposedItems := disposedItems + 1;
        statusBarItem := None;
      }
    }

    /** An open held port whose writable side is locked: flashing is under way. */
    predicate WriteLocked()
      reads this, instance
    {
      instance != null && instance.IsOpen() && instance.writable == Present(true)
    }

    /** An open held port whose readable side, but not its writable side, is locked. */
    predicate ReadLocked()
      reads this, instance
    {
      instance != null && instance.IsOpen() && instance.writable != Present(true)
      && instance.readable == Present(true)
    }

    /** Refused with an error, changing nothing else, while an open port has a
        locked writable side (flashing) or, failing that, a locked readable side
        (monitoring). Otherwise an open port is closed, and the held port and the
        status-bar item are dropped. Without a held port nothing happens. */
    method Disconnect()
      modifies this, instance
      ensures old(instance) == null ==>
        (instance == null && statusBarItem == old(statusBarItem)
         && errorMessages == old(errorMessages) && disposedItems == old(disposedItems))
      ensures old(WriteLocked()) ==>
        (instance == old(instance) && statusBarItem == old(statusBarItem) && unchanged(instance)
         && errorMessages == old(errorMessages) + [FlashingError] && disposedItems == old(disposedItems))
      ensures old(ReadLocked()) ==>
        (instance == old(instance) && statusBarItem == old(statusBarItem) && unchanged(instance)
         && errorMessages == old(errorMessages) + [ReadingError] && disposedItems == old(disposedItems))
      ensures old(instance) != null && !old(WriteLocked()) && !old(ReadLocked()) ==>
        (instance == null && statusBarItem == None && !Exists()
         && errorMessages == old(errorMessages)
         && disposedItems == old(disposedItems) + (if old(statusBarItem).Some? then 1 else 0)
         && !old(instance).IsOpen()
         && old(instance).closeCalls == old(instance.closeCalls) + (if old(instance.IsOpen()) then 1 else 0)
         && old(instance).disconnectListeners == old(instance.disconnectListeners))
      ensures portRequests == old(portRequests)
    {
      if instance != null {
        if instance.IsOpen() {
          if instance.writable == Present(true) {
            errorMessages := errorMessages + [FlashingError];
            return;
          }
          if instance.readable == Present(true) {
            errorMessages := errorMessages + [ReadingError];
            return;
          }
          instance.Close();
        }
        instance := null;
        if statusBarItem.Some? {
          disposedItems := disposedItems + 1;
          statusBarItem := None;
        }
      }
    }
  }
}
