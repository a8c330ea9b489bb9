/** The part of the USB library the core talks to: the descriptor tree of a
    device, and an opened device handle whose requests are answered by the
    attached device. The device is an oracle: its answer to the n-th request
    on the handle is `device(n)`. Every request issued is appended to a ghost
    trace, so that what an operation sends, and in which order, can be stated. */
module Usb {
  import opened Seqs
  import opened Bytes

  /** Direction of an endpoint, given by bit 7 of its address
      (section 9.6.6 of the USB 2.0 specification). */
  datatype Direction = In | Out

  function DirectionOf(address: byte): (d: Direction)
    ensures d == In <==> address >= 0x80
  {
    if address >= 0x80 then In else Out
  }

  datatype TransferType = Control | Isochronous | Bulk | Interrupt

  datatype EndpointDescriptor = EndpointDescriptor(address: byte, transferType: TransferType)

  /** One alternate setting of an interface. */
  datatype InterfaceDescriptor = InterfaceDescriptor(settingNumber: byte, endpoints: seq<EndpointDescriptor>)

  datatype Interface = Interface(number: byte, descriptors: seq<InterfaceDescriptor>)

  datatype ConfigDescriptor = ConfigDescriptor(number: byte, interfaces: seq<Interface>)

  /** What reading configuration descriptor `i` gives, for `i` in
      `0..num_configurations`; `None` when that read fails. */
  type Configurations = seq<Option<ConfigDescriptor>>

  datatype UsbError = Timeout | Pipe | NoDevice | Busy | Io | Overflow | Other

  datatype Status = Ok | Err(error: UsbError)

  /** The device's answer to one request. For a read it carries the bytes sent. */
  datatype Reply = Done(data: seq<byte>) | Failed(error: UsbError)

  /** The bytes a reply carries; a failed request carries none. */
  function DataOf(reply: Reply): (r: seq<byte>)
    ensures reply.Done? ==> r == reply.data
    ensures reply.Failed? ==> r == []
  {
    if reply.Done? then reply.data else []
  }

  function StatusOf(reply: Reply): (s: Status)
    ensures s.Ok? <==> reply.Done?
    ensures s.Err? ==> reply == Failed(s.error)
  {
    match reply
    case Done(_) => Ok
    case Failed(e) => Err(e)
  }

  /** A request issued on the handle. */
  datatype Request =
    | SetConfig(config: byte)
    | Claim(iface: byte)
    | SetAltSetting(iface: byte, setting: byte)
    | BulkOut(endpoint: byte, data: seq<byte>, timeoutSecs: nat)
    | BulkIn(endpoint: byte, length: nat, timeoutSecs: nat)

  predicate IsBulk(q: Request)
  {
    q.BulkOut? || q.BulkIn?
  }

  /** A buffer after a bulk read of `data` into it: the received bytes
      overwrite its front, at most its length of them; the rest stays. */
  function Received(buf: seq<byte>, data: seq<byte>): (r: seq<byte>)
    ensures |r| == |buf|
    ensures forall i | 0 <= i < |buf| :: r[i] == if i < |data| then data[i] else buf[i]
  {
    if |data| >= |buf| then data[..|buf|] else data + buf[|data|..]
  }

  datatype RunResult = RunResult(issued: seq<Request>, status: Status)

  /** The requests of `plan` issued one after the other against `device`,
      starting at request number `start`, until the first one that fails.
      `issued` is what was sent, the failing request included. */
  function Run(device: nat -> Reply, start: nat, plan: seq<Request>): (r: RunResult)
    ensures |r.issued| <= |plan|
    decreases |plan|
  {
    if plan == [] then RunResult([], Ok)
    else
      match device(start)
      case Failed(e) => RunResult([plan[0]], Err(e))
      case Done(_) =>
        var rest := Run(device, start + 1, plan[1..]);
        RunResult([plan[0]] + rest.issued, rest.status)
  }

  /** One step of a run: the first request is issued, and the rest of the
      plan follows only if the device answered it. */
  lemma RunCons(device: nat -> Reply, start: nat, q: Request, rest: seq<Request>)
    ensures Run(device, start, [q] + rest) ==
              if device(start).Failed? then RunResult([q], Err(device(start).error))
              else RunResult([q] + Run(device, start + 1, rest).issued, Run(device, start + 1, rest).status)
  {
    assert ([q] + rest)[0] == q;
    assert ([q] + rest)[1..] == rest;
  }

  /** What `Run` issues is a prefix of the plan. The run succeeds exactly when
      the whole plan was issued and every request was answered; otherwise the
      last request issued is the first that failed, and its error is the result. */
  lemma {:induction false} RunStopsAtFirstFailure(device: nat -> Reply, start: nat, plan: seq<Request>)
    ensures var r := Run(device, start, plan);
      && r.issued == plan[..|r.issued|]
      && (r.status.Ok? <==> r.issued == plan && forall n | start <= n < start + |plan| :: device(n).Done?)
      && (r.status.Err? ==>
            && |r.issued| > 0
            && device(start + |r.issued| - 1) == Failed(r.status.error)
            && forall n | start <= n < start + |r.issued| - 1 :: device(n).Done?)
    decreases |plan|
  {
    if plan != [] && device(start).Done? {
      RunStopsAtFirstFailure(device, start + 1, plan[1..]);
      var rest := Run(device, start + 1, plan[1..]);
      assert plan == [plan[0]] + plan[1..];
      assert [plan[0]] + rest.issued == plan[..1 + |rest.issued|];
    }
  }

  /** Running two plans back to back: the second one starts only when the
      first one succeeded. */
  lemma {:induction false} RunAppend(device: nat -> Reply, start: nat, p: seq<Request>, q: seq<Request>)
    ensures Run(device, start, p + q) ==
              var first := Run(device, start, p);
              if first.status.Err? then first
              else
                var second := Run(device, start + |p|, q);
                RunResult(p + second.issued, second.status)
    decreases |p|
  {
    if p == [] {
      assert p + q == q;
    } else {
      assert (p + q)[0] == p[0];
      assert (p + q)[1..] == p[1..] + q;
      match device(start)
      case Failed(e) =>
        assert Run(device, start, p + q) == RunResult([p[0]], Err(e));
        assert Run(device, start, p) == RunResult([p[0]], Err(e));
      case Done(_) =>
        RunAppend(device, start + 1, p[1..], q);
        var tail := Run(device, start + 1, p[1..]);
        var whole := Run(device, start + 1, p[1..] + q);
        assert Run(device, start, p + q) == RunResult([p[0]] + whole.issued, whole.status);
        assert Run(device, start, p) == RunResult([p[0]] + tail.issued, tail.status);
        if tail.status.Ok? {
          var second := Run(device, start + |p|, q);
          assert start + 1 + |p[1..]| == start + |p|;
          assert whole == RunResult(p[1..] + second.issued, second.status);
          assert [p[0]] + (p[1..] + second.issued) == p + second.issued;
        }
    }
  }

  class DeviceHandle {
    /** The attached device: its answer to each request, by request number. */
    const device: nat -> Reply
    /** Number of requests issued so far. */
    var calls: nat
    ghost var trace: seq<Request>

    ghost predicate Valid()
      reads this
    {
      calls == |trace|
    }

    constructor (device: nat -> Reply)
      ensures Valid() && this.device == device && trace == []
    {
      this.device := device;
      calls := 0;
      trace := [];
    }

    method Submit(q: Request) returns (reply: Reply)
      requires Valid()
      modifies this
      ensures Valid()
      ensures trace == old(trace) + [q]
      ensures reply == device(old(calls))
    {
      reply := device(calls);
      calls := calls + 1;
      trace := trace + [q];
    }

    method SetActiveConfiguration(config: byte) returns (s: Status)
      requires Valid()
      modifies this
      ensures Valid()
      ensures trace == old(trace) + [SetConfig(config)]
      ensures s == StatusOf(device(old(calls)))
    {
      var reply := Submit(SetConfig(config));
      s := StatusOf(reply);
    }

    method ClaimInterface(iface: byte) returns (s: Status)
      requires Valid()
      modifies this
      ensures Valid()
      ensures trace == old(trace) + [Claim(iface)]
      ensures s == StatusOf(device(old(calls)))
    {
      var reply := Submit(Claim(iface));
      s := StatusOf(reply);
    }

    method SetAlternateSetting(iface: byte, setting: byte) returns (s: Status)
      requires Valid()
      modifies this
      ensures Valid()
      ensures trace == old(trace) + [SetAltSetting(iface, setting)]
      ensures s == StatusOf(device(old(calls)))
    {
      var reply := Submit(SetAltSetting(iface, setting));
      s := StatusOf(reply);
    }

    method WriteBulk(endpoint: byte, data: seq<byte>, timeoutSecs: nat) returns (s: Status)
      requires Valid()
      modifies this
      ensures Valid()
      ensures trace == old(trace) + [BulkOut(endpoint, data, timeoutSecs)]
      ensures s == StatusOf(device(old(calls)))
    {
      var reply := Submit(BulkOut(endpoint, data, timeoutSecs));
      s := StatusOf(reply);
    }

    /** A bulk read into `buf`, sized by the buffer. */
    method ReadBulk(endpoint: byte, buf: array<byte>, timeoutSecs: nat) returns (s: Status)
      requires Valid()
      modifies this, buf
      ensures Valid()
      ensures trace == old(trace) + [BulkIn(endpoint, buf.Length, timeoutSecs)]
      ensures s == StatusOf(device(old(calls)))
      ensures buf[..] == if s.Ok? then Received(old(buf[..]), DataOf(device(old(calls)))) else old(buf[..])
    {
      var reply := Submit(BulkIn(endpoint, buf.Length, timeoutSecs));
      s := StatusOf(reply);
      if reply.Done? {
        var data := reply.data;
        forall i | 0 <= i < buf.Length && i < |data| {
          buf[i] := data[i];
        }
      }
    }
  }
}
