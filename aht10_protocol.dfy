/** What the driver's bus sequences mean as a protocol: the command bytes written, the bytes
    read and how each was acknowledged, the waits, and the interface every operation uses. */
module Aht10Protocol {
  import opened CTypes
  import opened I2CBus
  import opened Aht10Decode
  import opened Aht10Driver

  /** The bytes written by the master, in order. */
  function Written(es: seq<Event>): seq<Byte>
  {
    if es == [] then [] else (if es[0].Write? then [es[0].data] else []) + Written(es[1..])
  }

  /** The bytes read from the bus, in order. */
  function BytesRead(es: seq<Event>): seq<Byte>
  {
    if es == [] then [] else (if es[0].Read? then [es[0].data] else []) + BytesRead(es[1..])
  }

  /** The acknowledge flags the master sent after each byte it read, in order. */
  function Acks(es: seq<Event>): seq<Bit>
  {
    if es == [] then [] else (if es[0].Read? then [es[0].ack] else []) + Acks(es[1..])
  }

  /** The waits, in microseconds, in order. */
  function Delays(es: seq<Event>): seq<UInt32>
  {
    if es == [] then [] else (if es[0].Delay? then [es[0].us] else []) + Delays(es[1..])
  }

  /** Every bus operation goes to `port`. */
  predicate OnlyOn(es: seq<Event>, port: Interface)
  {
    forall i :: 0 <= i < |es| && !es[i].Delay? ==> es[i].port == port
  }

  /** A multi-byte read ends as the device requires: every byte acknowledged but the last. */
  predicate AckAllButLast(acks: seq<Bit>)
  {
    |acks| > 0 && acks[|acks| - 1] == 0 && forall i :: 0 <= i < |acks| - 1 ==> acks[i] == 1
  }

  /** The views distribute over concatenation. */
  lemma {:induction false} ViewsAppend(a: seq<Event>, b: seq<Event>)
    ensures Written(a + b) == Written(a) + Written(b)
    ensures BytesRead(a + b) == BytesRead(a) + BytesRead(b)
    ensures Acks(a + b) == Acks(a) + Acks(b)
    ensures Delays(a + b) == Delays(a) + Delays(b)
  {
    if a == [] {
      assert a + b == b;
    } else {
      assert (a + b)[0] == a[0] && (a + b)[1..] == a[1..] + b;
      ViewsPeel(a + b);
      ViewsPeel(a);
      ViewsAppend(a[1..], b);
    }
  }

  /** The views of a non-empty history: its first event, then the rest. */
  lemma ViewsPeel(es: seq<Event>)
    requires es != []
    ensures Written(es) == (if es[0].Write? then [es[0].data] else []) + Written(es[1..])
    ensures BytesRead(es) == (if es[0].Read? then [es[0].data] else []) + BytesRead(es[1..])
    ensures Acks(es) == (if es[0].Read? then [es[0].ack] else []) + Acks(es[1..])
    ensures Delays(es) == (if es[0].Delay? then [es[0].us] else []) + Delays(es[1..])
  {
  }

  /** Initialisation binds nothing but `port`, writes the three-byte initialisation command,
      reads nothing and ends with the short settle delay. */
  lemma InitViews(port: Interface, speed: UInt32)
    ensures InitTrace(port, speed)[0] == BusInit(port, speed)
    ensures Written(InitTrace(port, speed)) == InitCommand
    ensures BytesRead(InitTrace(port, speed)) == [] && Acks(InitTrace(port, speed)) == []
    ensures Delays(InitTrace(port, speed)) == [InitSettleUs]
    ensures OnlyOn(InitTrace(port, speed), port)
  {
    var t := InitTrace(port, speed);
    ViewsPeel(t[0..]);
    ViewsPeel(t[1..]);
    ViewsPeel(t[2..]);
    ViewsPeel(t[3..]);
    ViewsPeel(t[4..]);
    ViewsPeel(t[5..]);
    ViewsPeel(t[6..]);
    ViewsPeel(t[7..]);
    assert t[8..] == [];
  }

  /** The trigger transaction writes the trigger command, reads nothing, and is followed by
      the conversion wait. */
  lemma TriggerViews(port: Interface)
    ensures Written(TriggerTrace(port)) == TriggerCommand
    ensures BytesRead(TriggerTrace(port)) == [] && Acks(TriggerTrace(port)) == []
    ensures Delays(TriggerTrace(port)) == [MeasureUs]
    ensures TriggerTrace(port)[|TriggerTrace(port)| - 1] == Delay(MeasureUs)
    ensures OnlyOn(TriggerTrace(port), port)
  {
    var t := TriggerTrace(port);
    ViewsPeel(t[0..]);
    ViewsPeel(t[1..]);
    ViewsPeel(t[2..]);
    ViewsPeel(t[3..]);
    ViewsPeel(t[4..]);
    ViewsPeel(t[5..]);
    ViewsPeel(t[6..]);
    assert t[7..] == [];
  }

  /** The read transaction writes nothing, reads the six frame bytes in order with the
      acknowledge pattern 1, 1, 1, 1, 1, 0, and is followed by the post-read delay. */
  lemma FetchViews(port: Interface, f: Frame)
    ensures Written(FetchTrace(port, f)) == []
    ensures BytesRead(FetchTrace(port, f)) == f
    ensures Acks(FetchTrace(port, f)) == [1, 1, 1, 1, 1, 0]
    ensures Delays(FetchTrace(port, f)) == [ReadSettleUs]
    ensures OnlyOn(FetchTrace(port, f), port)
  {
    var head: seq<Event> := [Start(port), Address(port, SensorAddress, 1)];
    var body, tail := FrameReads(port, f), [Stop(port), Delay(ReadSettleUs)];
    ViewsPeel(head[0..]);
    ViewsPeel(head[1..]);
    assert head[2..] == [];
    ViewsPeel(body[0..]);
    ViewsPeel(body[1..]);
    ViewsPeel(body[2..]);
    ViewsPeel(body[3..]);
    ViewsPeel(body[4..]);
    ViewsPeel(body[5..]);
    assert body[6..] == [];
    ViewsPeel(tail[0..]);
    ViewsPeel(tail[1..]);
    assert tail[2..] == [];
    ViewsAppend(head, body);
    ViewsAppend(head + body, tail);
  }

  /** The whole measurement cycle: it writes exactly the trigger command, then waits 75 ms,
      then reads exactly the frame, acknowledging every byte but the last, then waits 420 us;
      every bus operation goes to the interface the driver is bound to. */
  lemma MeasureTraceViews(port: Interface, f: Frame)
    ensures Written(MeasureTrace(port, f)) == TriggerCommand
    ensures BytesRead(MeasureTrace(port, f)) == f
    ensures Acks(MeasureTrace(port, f)) == [1, 1, 1, 1, 1, 0]
    ensures AckAllButLast(Acks(MeasureTrace(port, f)))
    ensures Delays(MeasureTrace(port, f)) == [MeasureUs, ReadSettleUs]
    ensures OnlyOn(MeasureTrace(port, f), port)
  {
    TriggerViews(port);
    FetchViews(port, f);
    ViewsAppend(TriggerTrace(port), FetchTrace(port, f));
    OnlyOnAppend(TriggerTrace(port), FetchTrace(port, f), port);
  }

  lemma OnlyOnAppend(a: seq<Event>, b: seq<Event>, port: Interface)
    requires OnlyOn(a, port) && OnlyOn(b, port)
    ensures OnlyOn(a + b, port)
  {
    forall i | 0 <= i < |a + b| && !(a + b)[i].Delay?
      ensures (a + b)[i].port == port
    {
      if i >= |a| {
        assert (a + b)[i] == b[i - |a|];
      }
    }
  }

  /** After `AHT10_init( port, speed )`, a measurement cycle goes to the same interface: the
      whole session names no other. */
  lemma SessionStaysOnPort(port: Interface, speed: UInt32, f: Frame)
    ensures OnlyOn(InitTrace(port, speed) + MeasureTrace(port, f), port)
    ensures Written(InitTrace(port, speed) + MeasureTrace(port, f)) == InitCommand + TriggerCommand
    ensures BytesRead(InitTrace(port, speed) + MeasureTrace(port, f)) == f
  {
    InitViews(port, speed);
    MeasureTraceViews(port, f);
    ViewsAppend(InitTrace(port, speed), MeasureTrace(port, f));
    OnlyOnAppend(InitTrace(port, speed), MeasureTrace(port, f), port);
  }

  /** The sensor path of the firmware's start-up and first loop pass: initialise the driver on
      `port`, then take one reading. */
  method InitThenRead(sensor: Sensor, port: Interface, speed: UInt32)
      returns (status: Byte, temp100: Int16, humid100: Int16)
    modifies sensor, sensor.board
    ensures sensor.binding == Bound(port)
    ensures Reading(status, temp100, humid100)
      == Decode(Incoming(sensor.board.device, old(sensor.board.received)))
    ensures sensor.board.trace == old(sensor.board.trace)
      + InitTrace(port, speed) + MeasureTrace(port, Incoming(sensor.board.device, old(sensor.board.received)))
    ensures OnlyOn(sensor.board.trace[|old(sensor.board.trace)|..], port)
  {
    ghost var before := sensor.board.trace;
    sensor.Init(port, speed);
    status, temp100, humid100 := sensor.GetTempHumid100();
    ghost var f := Incoming(sensor.board.device, old(sensor.board.received));
    assert sensor.board.trace == before + (InitTrace(port, speed) + MeasureTrace(port, f));
    assert sensor.board.trace[|before|..] == InitTrace(port, speed) + MeasureTrace(port, f);
    SessionStaysOnPort(port, speed, f);
  }
}
