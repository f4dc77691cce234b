/** The bus and timing primitives the sensor driver calls (the I2C library and `delay_us`), seen
    only through what they do on the wire: each call appends one event to the board's trace, and
    a read returns the next byte the device on the bus sends, taken from an oracle. */
module I2CBus {
  import opened CTypes

  /** One of the microcontroller's I2C peripherals, the `I2C_TypeDef *` a driver is bound to. */
  datatype Interface = Interface(id: nat)

  /** One bus or timer operation, in the order in which it was issued. `rw` is the direction
      bit sent with the address (0 write, 1 read); `ack` is 1 when the master acknowledges the
      byte it read and 0 when it does not. */
  datatype Event =
    | BusInit(port: Interface, speed: UInt32)
    | Start(port: Interface)
    | Address(port: Interface, addr: Byte, rw: Bit)
    | Write(port: Interface, data: Byte)
    | Read(port: Interface, ack: Bit, data: Byte)
    | Stop(port: Interface)
    | Delay(us: UInt32)

  /** What the devices on the bus send: `next(k)` is the byte delivered by the k-th read. */
  datatype Responder = Responder(next: nat -> Byte)

  function ByteSent(device: Responder, k: nat): Byte
  {
    device.next(k)
  }

  /** The I2C peripherals and the delay loop of the board, as a history of events. */
  class Board {
    var trace: seq<Event>
    /** number of bytes read from the bus so far */
    var received: nat
    /** the devices answering reads */
    const device: Responder

    constructor (device: Responder)
      ensures trace == [] && received == 0 && this.device == device
    {
      trace, received := [], 0;
      this.device := device;
    }

    /** `I2C_init( port, speed )` */
    method I2CInit(port: Interface, speed: UInt32)
      modifies this
      ensures trace == old(trace) + [BusInit(port, speed)] && received == old(received)
    {
      trace := trace + [BusInit(port, speed)];
    }

    /** `I2C_start( port )` */
    method I2CStart(port: Interface)
      modifies this
      ensures trace == old(trace) + [Start(port)] && received == old(received)
    {
      trace := trace + [Start(port)];
    }

    /** `I2C_address( port, addr, rw )` */
    method I2CAddress(port: Interface, addr: Byte, rw: Bit)
      modifies this
      ensures trace == old(trace) + [Address(port, addr, rw)] && received == old(received)
    {
      trace := trace + [Address(port, addr, rw)];
    }

    /** `I2C_write( port, data )` */
    method I2CWrite(port: Interface, data: Byte)
      modifies this
      ensures trace == old(trace) + [Write(port, data)] && received == old(received)
    {
      trace := trace + [Write(port, data)];
    }

    /** `I2C_read( port, ack )`: the next byte from the bus. */
    method I2CRead(port: Interface, ack: Bit) returns (data: Byte)
      modifies this
      ensures data == ByteSent(device, old(received)) && received == old(received) + 1
      ensures trace == old(trace) + [Read(port, ack, data)]
    {
      data := ByteSent(device, received);
      received := received + 1;
      trace := trace + [Read(port, ack, data)];
    }

    /** `I2C_stop( port )` */
    method I2CStop(port: Interface)
      modifies this
      ensures trace == old(trace) + [Stop(port)] && received == old(received)
    {
      trace := trace + [Stop(port)];
    }

    /** `delay_us( us )`: only the requested duration is recorded. */
    method DelayUs(us: UInt32)
      modifies this
      ensures trace == old(trace) + [Delay(us)] && received == old(received)
    {
      trace := trace + [Delay(us)];
    }
  }
}
