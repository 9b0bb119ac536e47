/** The Web Serial port object the extension holds: its USB identity, whether its
    readable and writable sides exist and are locked, and the calls made on it. */
module SerialDevice {
  import opened JsBase

  /** One side of a port: `null` while the port is closed, otherwise a stream
      that a reader or writer may hold locked. */
  datatype Side = Absent | Present(locked: bool)

  class SerialPort {
    const usbVendorId: Option<nat>
    const usbProductId: Option<nat>
    var readable: Side
    var writable: Side
    /** How many times `close()` was called. */
    var closeCalls: nat
    /** How many `disconnect` listeners were registered with `addEventListener`. */
    var disconnectListeners: nat

    constructor (vendor: Option<nat>, product: Option<nat>, r: Side, w: Side)
      ensures usbVendorId == vendor && usbProductId == product
      ensures readable == r && writable == w
      ensures closeCalls == 0 && disconnectListeners == 0
    {
      usbVendorId, usbProductId := vendor, product;
      readable, writable := r, w;
      closeCalls, disconnectListeners := 0, 0;
    }

    /** `port.readable || port.writable`: the port is open. */
    predicate IsOpen()
      reads this
    {
      readable.Present? || writable.Present?
    }

    /** `port.close()`: both sides go away. */
    method Close()
      modifies this
      ensures readable == Absent && writable == Absent && !IsOpen()
      ensures closeCalls == old(closeCalls) + 1
      ensures disconnectListeners == old(disconnectListeners)
    {
      readable, writable := Absent, Absent;
      closeCalls := closeCalls + 1;
    }

    /** `port.addEventListener("disconnect", ...)`. */
    method AddDisconnectListener()
      modifies this
      ensures disconnectListeners == old(disconnectListeners) + 1
      ensures readable == old(readable) && writable == old(writable) && closeCalls == old(closeCalls)
    {
      disconnectListeners := disconnectListeners + 1;
    }
  }
}
