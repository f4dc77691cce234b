/** The AHT10 protocol driver: the initialisation handshake, the trigger/wait/read measurement
    cycle that fills a caller's buffer with the 6-byte frame, and the reading of converted
    temperature and humidity, over the bus of module I2CBus. */
module Aht10Driver {
  import opened CTypes
  import opened I2CBus
  import opened Aht10Decode

  /** 7-bit I2C address of the sensor */
  const SensorAddress: Byte := 0x38
  /** initialisation command: opcode, calibration-enable byte, terminating zero */
  const InitOpcode: Byte := 0xE1
  const InitCalibrate: Byte := 0x08
  const InitEnd: Byte := 0x00
  const InitCommand: seq<Byte> := [InitOpcode, InitCalibrate, InitEnd]
  /** measurement trigger command: opcode and its two parameter bytes */
  const TriggerOpcode: Byte := 0xAC
  const TriggerArg: Byte := 0x33
  const TriggerEnd: Byte := 0x00
  const TriggerCommand: seq<Byte> := [TriggerOpcode, TriggerArg, TriggerEnd]
  /** settle delays in microseconds: after initialisation, after the trigger, after the read */
  const InitSettleUs: UInt32 := 40
  const MeasureUs: UInt32 := 75000
  const ReadSettleUs: UInt32 := 420

  /** The bus sequence of `AHT10_init`, step by step. */
  function InitTrace(port: Interface, speed: UInt32): seq<Event>
  {
    [BusInit(port, speed),
     Start(port), Address(port, SensorAddress, 0),
     Write(port, InitOpcode), Write(port, InitCalibrate), Write(port, InitEnd),
     Stop(port), Delay(InitSettleUs)]
  }

  /** The bus sequence of `AHT10_readSensorData` when the sensor answers with frame `f`:
      the trigger transaction and the wait for the conversion, then the read transaction. */
  function MeasureTrace(port: Interface, f: Frame): seq<Event>
  {
    TriggerTrace(port) + FetchTrace(port, f)
  }

  function TriggerTrace(port: Interface): seq<Event>
  {
    [Start(port), Address(port, SensorAddress, 0),
     Write(port, TriggerOpcode), Write(port, TriggerArg), Write(port, TriggerEnd),
     Stop(port), Delay(MeasureUs)]
  }

  function FetchTrace(port: Interface, f: Frame): seq<Event>
  {
    [Start(port), Address(port, SensorAddress, 1)] + FrameReads(port, f) + [Stop(port), Delay(ReadSettleUs)]
  }

  /** The six reads of the frame: acknowledged (1) except the last (0). */
  function FrameReads(port: Interface, f: Frame): seq<Event>
  {
    [Read(port, 1, f[0]), Read(port, 1, f[1]), Read(port, 1, f[2]),
     Read(port, 1, f[3]), Read(port, 1, f[4]), Read(port, 0, f[5])]
  }

  /** The six bytes the bus delivers from its n-th read on. */
  function Incoming(device: Responder, n: nat): Frame
  {
    [ByteSent(device, n), ByteSent(device, n + 1), ByteSent(device, n + 2),
     ByteSent(device, n + 3), ByteSent(device, n + 4), ByteSent(device, n + 5)]
  }

  /** The global `AHT10_I2C`: no interface until `AHT10_init` has run. */
  datatype Binding = Unbound | Bound(port: Interface)

  class Sensor {
    const board: Board
    var binding: Binding

    constructor (board: Board)
      ensures this.board == board && binding == Unbound
    {
      this.board := board;
      binding := Unbound;
    }

    /** `AHT10_init( thisI2C, i2cSpeed )`: binds the driver to `thisI2C`, initialises the
        interface and sends the initialisation command. */
    method Init(thisI2C: Interface, i2cSpeed: UInt32)
      modifies this, board
      ensures binding == Bound(thisI2C)
      ensures board.trace == old(board.trace) + InitTrace(thisI2C, i2cSpeed)
      ensures board.received == old(board.received)
    {
      binding := Bound(thisI2C);
      var port := binding.port;
      board.I2CInit(port, i2cSpeed);
      board.I2CStart(port);
      board.I2CAddress(port, SensorAddress, 0);
      board.I2CWrite(port, InitOpcode);
      board.I2CWrite(port, InitCalibrate);
      board.I2CWrite(port, InitEnd);
      board.I2CStop(port);
      board.DelayUs(InitSettleUs);
    }

    /** `AHT10_readSensorData( data )`: triggers a measurement, waits for it and stores the six
        bytes read into data[0..5]; the caller's buffer must hold at least six bytes and the
        driver must have been initialised. */
    method ReadSensorData(data: array<Byte>)
      requires binding.Bound?
      requires data.Length >= 6
      modifies board, data
      ensures board.trace == old(board.trace)
        + MeasureTrace(binding.port, Incoming(board.device, old(board.received)))
      ensures board.received == old(board.received) + 6
      ensures data[..6] == Incoming(board.device, old(board.received))
      ensures data[6..] == old(data[6..])
    {
      Trigger();
      var frame := Fetch();
      // each byte is stored in data[i] as it is read; the buffer is not looked at in
      // between, so storing the six once the transaction is over leaves the same state
      data[0], data[1], data[2], data[3], data[4], data[5] :=
        frame[0], frame[1], frame[2], frame[3], frame[4], frame[5];
    }

    /** The trigger half of `AHT10_readSensorData`: the trigger command, then the wait for
        the conversion to complete. */
    method Trigger()
      requires binding.Bound?
      modifies board
      ensures board.trace == old(board.trace) + TriggerTrace(binding.port)
      ensures board.received == old(board.received)
    {
      var port := binding.port;
      board.I2CStart(port);
      board.I2CAddress(port, SensorAddress, 0);
      board.I2CWrite(port, TriggerOpcode);
      board.I2CWrite(port, TriggerArg);
      board.I2CWrite(port, TriggerEnd);
      board.I2CStop(port);
      board.DelayUs(MeasureUs);
    }

    /** The read half of `AHT10_readSensorData`: the read transaction, acknowledging the
        first five bytes and not the sixth, then the settle delay; returns the bytes read. */
    method Fetch() returns (frame: Frame)
      requires binding.Bound?
      modifies board
      ensures frame == Incoming(board.device, old(board.received))
      ensures board.trace == old(board.trace) + FetchTrace(binding.port, frame)
      ensures board.received == old(board.received) + 6
    {
      var port := binding.port;
      board.I2CStart(port);
      board.I2CAddress(port, SensorAddress, 1);
      ghost var addressed := board.trace;
      var status := board.I2CRead(port, 1);
      var humid19to12 := board.I2CRead(port, 1);
      var humid11to4 := board.I2CRead(port, 1);
      var humid3to0temp19to16 := board.I2CRead(port, 1);
      var temp15to8 := board.I2CRead(port, 1);
      var temp7to0 := board.I2CRead(port, 0);
      frame := [status, humid19to12, humid11to4, humid3to0temp19to16, temp15to8, temp7to0];
      assert board.trace == addressed + FrameReads(port, frame);
      board.I2CStop(port);
      board.DelayUs(ReadSettleUs);
    }

    /** `AHT10_getTempHumid100( &temp100, &humid100 )`: one measurement cycle, then the frame
        decoded; the status byte is the return value, the readings the out-parameters. */
    method GetTempHumid100() returns (status: Byte, temp100: Int16, humid100: Int16)
      requires binding.Bound?
      modifies board
      ensures Reading(status, temp100, humid100) == Decode(Incoming(board.device, old(board.received)))
      ensures board.trace == old(board.trace)
        + MeasureTrace(binding.port, Incoming(board.device, old(board.received)))
      ensures board.received == old(board.received) + 6
    {
      var ahtData := new Byte[6];
      ReadSensorData(ahtData);
      var frame: Frame := ahtData[..];
      var humidData := HumidData(frame);
      var tempData := TempData(frame);
      temp100 := CentiCelsius(tempData);
      humid100 := HumidPercent(humidData);
      status := ahtData[0];
    }
  }
}
