/** The peek/poke client of `src/switch_utils.rs`: endpoint discovery over the
    descriptor tree, the three-step endpoint configuration, length-framed
    command transmission, length-headed reception, and the `Switch` object
    that turns "write a 32-bit word" and "read N bytes" into `poke` and
    `peek` commands. */
module SwitchUtils {
  import opened Seqs
  import opened Bytes
  import opened Text
  import opened Usb

  const SEND_TIMEOUT_SECS: nat := 5
  const RECEIVE_TIMEOUT_SECS: nat := 30

  /** The endpoint the client talks through, with the configuration,
      interface and alternate setting it lives in. */
  datatype Endpoint = Endpoint(config: byte, iface: byte, setting: byte, address: byte)

  // ---------------------------------------------------------------------
  // Endpoint discovery: the descriptor tree flattened in nested index order.

  function EndpointPick(c: ConfigDescriptor, i: Interface, a: InterfaceDescriptor, dir: Direction)
    : EndpointDescriptor -> seq<Endpoint>
  {
    (e: EndpointDescriptor) => if DirectionOf(e.address) == dir then [Endpoint(c.number, i.number, a.settingNumber, e.address)] else []
  }

  function SettingMatches(c: ConfigDescriptor, i: Interface, a: InterfaceDescriptor, dir: Direction): seq<Endpoint>
  {
    FlatMap(a.endpoints, EndpointPick(c, i, a, dir))
  }

  function SettingPick(c: ConfigDescriptor, i: Interface, dir: Direction): InterfaceDescriptor -> seq<Endpoint>
  {
    (a: InterfaceDescriptor) => SettingMatches(c, i, a, dir)
  }

  function InterfaceMatches(c: ConfigDescriptor, i: Interface, dir: Direction): seq<Endpoint>
  {
    FlatMap(i.descriptors, SettingPick(c, i, dir))
  }

  function InterfacePick(c: ConfigDescriptor, dir: Direction): Interface -> seq<Endpoint>
  {
    (i: Interface) => InterfaceMatches(c, i, dir)
  }

  function ConfigMatches(c: ConfigDescriptor, dir: Direction): seq<Endpoint>
  {
    FlatMap(c.interfaces, InterfacePick(c, dir))
  }

  /** An unreadable configuration contributes nothing. */
  function ConfigPick(dir: Direction): Option<ConfigDescriptor> -> seq<Endpoint>
  {
    (oc: Option<ConfigDescriptor>) => if oc.Some? then ConfigMatches(oc.value, dir) else []
  }

  /** Every endpoint of the requested direction, in the order the nested
      loops of `get_switch_enpoint` meet them. */
  function DeviceMatches(configs: Configurations, dir: Direction): seq<Endpoint>
  {
    FlatMap(configs, ConfigPick(dir))
  }

  /** Indices of an endpoint descriptor of direction `dir` in a readable
      configuration. */
  ghost predicate MatchAt(configs: Configurations, dir: Direction, ci: int, ii: int, ai: int, ei: int)
  {
    && 0 <= ci < |configs| && configs[ci].Some?
    && 0 <= ii < |configs[ci].value.interfaces|
    && 0 <= ai < |configs[ci].value.interfaces[ii].descriptors|
    && 0 <= ei < |configs[ci].value.interfaces[ii].descriptors[ai].endpoints|
    && DirectionOf(configs[ci].value.interfaces[ii].descriptors[ai].endpoints[ei].address) == dir
  }

  /** The `Endpoint` built from the descriptors at those indices. */
  ghost function EndpointAt(configs: Configurations, dir: Direction, ci: int, ii: int, ai: int, ei: int): Endpoint
    requires MatchAt(configs, dir, ci, ii, ai, ei)
  {
    var c := configs[ci].value;
    var i := c.interfaces[ii];
    var a := i.descriptors[ai];
    Endpoint(c.number, i.number, a.settingNumber, a.endpoints[ei].address)
  }

  /** Where a candidate of one alternate setting comes from. */
  lemma SettingWitness(c: ConfigDescriptor, i: Interface, a: InterfaceDescriptor, dir: Direction, e: Endpoint)
    returns (ei: nat)
    requires e in SettingMatches(c, i, a, dir)
    ensures ei < |a.endpoints| && DirectionOf(a.endpoints[ei].address) == dir
    ensures e == Endpoint(c.number, i.number, a.settingNumber, a.endpoints[ei].address)
  {
    FlatMapMember(a.endpoints, EndpointPick(c, i, a, dir), e);
    ei :| 0 <= ei < |a.endpoints| && e in EndpointPick(c, i, a, dir)(a.endpoints[ei]);
  }

  /** Where a candidate of one interface comes from. */
  lemma InterfaceWitness(c: ConfigDescriptor, i: Interface, dir: Direction, e: Endpoint)
    returns (ai: nat, ei: nat)
    requires e in InterfaceMatches(c, i, dir)
    ensures ai < |i.descriptors| && ei < |i.descriptors[ai].endpoints|
    ensures DirectionOf(i.descriptors[ai].endpoints[ei].address) == dir
    ensures e == Endpoint(c.number, i.number, i.descriptors[ai].settingNumber, i.descriptors[ai].endpoints[ei].address)
  {
    FlatMapMember(i.descriptors, SettingPick(c, i, dir), e);
    ai :| 0 <= ai < |i.descriptors| && e in SettingPick(c, i, dir)(i.descriptors[ai]);
    ei := SettingWitness(c, i, i.descriptors[ai], dir, e);
  }

  /** Where a candidate of one configuration comes from. */
  lemma ConfigWitness(c: ConfigDescriptor, dir: Direction, e: Endpoint)
    returns (ii: nat, ai: nat, ei: nat)
    requires e in ConfigMatches(c, dir)
    ensures ii < |c.interfaces| && ai < |c.interfaces[ii].descriptors|
    ensures ei < |c.interfaces[ii].descriptors[ai].endpoints|
    ensures DirectionOf(c.interfaces[ii].descriptors[ai].endpoints[ei].address) == dir
    ensures e == Endpoint(c.number, c.interfaces[ii].number, c.interfaces[ii].descriptors[ai].settingNumber,
                          c.interfaces[ii].descriptors[ai].endpoints[ei].address)
  {
    FlatMapMember(c.interfaces, InterfacePick(c, dir), e);
    ii :| 0 <= ii < |c.interfaces| && e in InterfacePick(c, dir)(c.interfaces[ii]);
    ai, ei := InterfaceWitness(c, c.interfaces[ii], dir, e);
  }

  /** Every candidate is an endpoint of direction `dir` in a readable
      configuration, at the indices returned: nothing is invented. */
  lemma DeviceMatchesSound(configs: Configurations, dir: Direction, e: Endpoint)
    returns (ci: nat, ii: nat, ai: nat, ei: nat)
    requires e in DeviceMatches(configs, dir)
    ensures MatchAt(configs, dir, ci, ii, ai, ei) && EndpointAt(configs, dir, ci, ii, ai, ei) == e
  {
    FlatMapMember(configs, ConfigPick(dir), e);
    ci :| 0 <= ci < |configs| && e in ConfigPick(dir)(configs[ci]);
    ii, ai, ei := ConfigWitness(configs[ci].value, dir, e);
  }

  /** Every endpoint of direction `dir` in a readable configuration is a
      candidate: nothing is missed. */
  lemma DeviceMatchesComplete(configs: Configurations, dir: Direction, ci: int, ii: int, ai: int, ei: int)
    requires MatchAt(configs, dir, ci, ii, ai, ei)
    ensures EndpointAt(configs, dir, ci, ii, ai, ei) in DeviceMatches(configs, dir)
  {
    var e := EndpointAt(configs, dir, ci, ii, ai, ei);
    var c := configs[ci].value;
    var i := c.interfaces[ii];
    var a := i.descriptors[ai];
    assert e in EndpointPick(c, i, a, dir)(a.endpoints[ei]);
    FlatMapMember(a.endpoints, EndpointPick(c, i, a, dir), e);
    assert e in SettingPick(c, i, dir)(i.descriptors[ai]);
    FlatMapMember(i.descriptors, SettingPick(c, i, dir), e);
    assert e in InterfacePick(c, dir)(c.interfaces[ii]);
    FlatMapMember(c.interfaces, InterfacePick(c, dir), e);
    assert e in ConfigPick(dir)(configs[ci]);
    FlatMapMember(configs, ConfigPick(dir), e);
  }

  /** The candidates are exactly the endpoints of direction `dir` found in
      readable configurations. */
  lemma DeviceMatchesExactly(configs: Configurations, dir: Direction, e: Endpoint)
    ensures e in DeviceMatches(configs, dir) <==>
              exists ci, ii, ai, ei :: MatchAt(configs, dir, ci, ii, ai, ei) && EndpointAt(configs, dir, ci, ii, ai, ei) == e
  {
    if e in DeviceMatches(configs, dir) {
      var ci, ii, ai, ei := DeviceMatchesSound(configs, dir, e);
    }
    if exists ci, ii, ai, ei :: MatchAt(configs, dir, ci, ii, ai, ei) && EndpointAt(configs, dir, ci, ii, ai, ei) == e {
      var ci, ii, ai, ei :| MatchAt(configs, dir, ci, ii, ai, ei) && EndpointAt(configs, dir, ci, ii, ai, ei) == e;
      DeviceMatchesComplete(configs, dir, ci, ii, ai, ei);
    }
  }

  /** There is no candidate exactly when no readable configuration holds an
      endpoint of that direction. */
  lemma NoMatchIffNoEndpoint(configs: Configurations, dir: Direction)
    ensures DeviceMatches(configs, dir) == [] <==> forall ci, ii, ai, ei :: !MatchAt(configs, dir, ci, ii, ai, ei)
  {
    if DeviceMatches(configs, dir) != [] {
      DeviceMatchesExactly(configs, dir, DeviceMatches(configs, dir)[0]);
    }
    forall ci, ii, ai, ei | MatchAt(configs, dir, ci, ii, ai, ei)
      ensures DeviceMatches(configs, dir) != []
    {
      DeviceMatchesExactly(configs, dir, EndpointAt(configs, dir, ci, ii, ai, ei));
    }
  }

  /** `get_switch_enpoint`: the first endpoint of direction `dir`, walking
      configurations, interfaces, alternate settings and endpoints in index
      order and skipping configurations whose descriptor cannot be read.
      The transfer type of the endpoint is not looked at. Each of the four
      nested loops of the source is one method here. */
  method GetSwitchEndpoint(configs: Configurations, dir: Direction) returns (r: Option<Endpoint>)
    ensures r == Head(DeviceMatches(configs, dir))
  {
    var ci := 0;
    while ci < |configs|
      invariant 0 <= ci <= |configs|
      invariant FlatMap(configs[..ci], ConfigPick(dir)) == []
    {
      if configs[ci].Some? {
        r := SearchConfig(configs[ci].value, dir);
        if r.Some? {
          FlatMapFirst(configs, ci, ConfigPick(dir));
          return;
        }
      }
      FlatMapSnoc(configs[..ci], configs[ci], ConfigPick(dir));
      assert configs[..ci + 1] == configs[..ci] + [configs[ci]];
      ci := ci + 1;
    }
    assert configs[..ci] == configs;
    r := None;
  }

  method SearchConfig(c: ConfigDescriptor, dir: Direction) returns (r: Option<Endpoint>)
    ensures r == Head(ConfigMatches(c, dir))
  {
    var ii := 0;
    while ii < |c.interfaces|
      invariant 0 <= ii <= |c.interfaces|
      invariant FlatMap(c.interfaces[..ii], InterfacePick(c, dir)) == []
    {
      r := SearchInterface(c, c.interfaces[ii], dir);
      if r.Some? {
        FlatMapFirst(c.interfaces, ii, InterfacePick(c, dir));
        return;
      }
      FlatMapSnoc(c.interfaces[..ii], c.interfaces[ii], InterfacePick(c, dir));
      assert c.interfaces[..ii + 1] == c.interfaces[..ii] + [c.interfaces[ii]];
      ii := ii + 1;
    }
    assert c.interfaces[..ii] == c.interfaces;
    r := None;
  }

  method SearchInterface(c: ConfigDescriptor, iface: Interface, dir: Direction) returns (r: Option<Endpoint>)
    ensures r == Head(InterfaceMatches(c, iface, dir))
  {
    var ai := 0;
    while ai < |iface.descriptors|
      invariant 0 <= ai <= |iface.descriptors|
      invariant FlatMap(iface.descriptors[..ai], SettingPick(c, iface, dir)) == []
    {
      r := SearchSetting(c, iface, iface.descriptors[ai], dir);
      if r.Some? {
        FlatMapFirst(iface.descriptors, ai, SettingPick(c, iface, dir));
        return;
      }
      FlatMapSnoc(iface.descriptors[..ai], iface.descriptors[ai], SettingPick(c, iface, dir));
      assert iface.descriptors[..ai + 1] == iface.descriptors[..ai] + [iface.descriptors[ai]];
      ai := ai + 1;
    }
    assert iface.descriptors[..ai] == iface.descriptors;
    r := None;
  }

  method SearchSetting(c: ConfigDescriptor, iface: Interface, alt: InterfaceDescriptor, dir: Direction)
    returns (r: Option<Endpoint>)
    ensures r == Head(SettingMatches(c, iface, alt, dir))
  {
    var ei := 0;
    while ei < |alt.endpoints|
      invariant 0 <= ei <= |alt.endpoints|
      invariant FlatMap(alt.endpoints[..ei], EndpointPick(c, iface, alt, dir)) == []
    {
      var e := alt.endpoints[ei];
      if DirectionOf(e.address) == dir {
        FlatMapFirst(alt.endpoints, ei, EndpointPick(c, iface, alt, dir));
        return Some(Endpoint(c.number, iface.number, alt.settingNumber, e.address));
      }
      FlatMapSnoc(alt.endpoints[..ei], e, EndpointPick(c, iface, alt, dir));
      assert alt.endpoints[..ei + 1] == alt.endpoints[..ei] + [e];
      ei := ei + 1;
    }
    assert alt.endpoints[..ei] == alt.endpoints;
    r := None;
  }

  // ---------------------------------------------------------------------
  // Commands and framing

  /** `u32::from_le_bytes(value.to_be_bytes())`: the value with its four
      bytes in reverse order. */
  function SwapBytes(value: u32): u32
  {
    FromLe(BeBytes(value))
  }

  lemma SwapBytesReverses(value: u32)
    ensures LeBytes(SwapBytes(value)) == Reverse4(LeBytes(value))
  {
    LeBytesOfFromLe(BeBytes(value));
    BeIsReversedLe(value);
  }

  /** Swapping twice gives the value back. */
  lemma SwapBytesTwice(value: u32)
    ensures SwapBytes(SwapBytes(value)) == value
  {
    SwapBytesReverses(value);
    SwapBytesReverses(SwapBytes(value));
    var b := LeBytes(value);
    assert Reverse4(Reverse4(b)) == b;
    assert LeBytes(SwapBytes(SwapBytes(value))) == b;
    FromLeOfLeBytes(SwapBytes(SwapBytes(value)));
    FromLeOfLeBytes(value);
  }

  lemma SwapBytesExample()
    ensures SwapBytes(0x9c9) == 0xc909_0000
  {
  }

  /** The verb, then `x` and `y` each as `0x` and eight lower-case hexadecimal digits, separated by spaces. */
  function Command(verb: string, x: u32, y: u32): string
  {
    verb + " " + Hex8(x) + " " + Hex8(y)
  }

  /** The command `write_dword` sends. */
  function PokeCommand(address: u32, value: u32): string
  {
    Command("poke", address, SwapBytes(value))
  }

  /** The command `read_bytes` sends. */
  function PeekCommand(address: u32, length: u32): string
  {
    Command("peek", address, length)
  }

  /** A command of the form `<verb> 0x<8 digits> 0x<8 digits>`, plain
      ASCII, each digit a lower-case hexadecimal one, whose two numeric
      tokens read back as `first` and `second`. */
  ghost predicate WellFormedCommand(command: string, verb: string, first: u32, second: u32)
  {
    && |command| == 26 && IsAscii(command)
    && command[..5] == verb + " " && command[15] == ' '
    && command[5..7] == "0x" && command[16..18] == "0x"
    && FromStrRadix16(command[7..15]) == Some(first)
    && FromStrRadix16(command[18..26]) == Some(second)
    && forall k | 7 <= k < 15 || 18 <= k < 26 :: command[k] in HEX_DIGITS
  }

  lemma CommandOfTokens(verb: string, x: u32, y: u32)
    requires |verb| == 4 && IsAscii(verb)
    ensures WellFormedCommand(Command(verb, x, y), verb, x, y)
  {
    var h1, h2 := Hex8(x), Hex8(y);
    var command := verb + " " + h1 + " " + h2;
    assert command[..5] == verb + " ";
    assert command[5..15] == h1;
    assert command[16..26] == h2;
    assert command[5..7] == h1[..2] && command[7..15] == h1[2..];
    assert command[16..18] == h2[..2] && command[18..26] == h2[2..];
    Hex8RoundTrip(x);
    Hex8RoundTrip(y);
    Hex8Ascii(x);
    Hex8Ascii(y);
    forall k | 0 <= k < |command| ensures command[k] as int < 0x80 {
      if k < 5 {
        assert command[k] == (verb + " ")[k];
      } else if k < 15 {
        assert command[k] == h1[k - 5];
      } else if 16 <= k {
        assert command[k] == h2[k - 16];
      }
    }
  }

  /** A poke is 26 ASCII characters; its address token reads back as the
      address and its value token as the byte-swapped value. */
  lemma PokeCommandWellFormed(address: u32, value: u32)
    ensures WellFormedCommand(PokeCommand(address, value), "poke", address, SwapBytes(value))
  {
    CommandOfTokens("poke", address, SwapBytes(value));
  }

  /** A peek is 26 ASCII characters whose tokens read back as the address
      and the length. */
  lemma PeekCommandWellFormed(address: u32, length: u32)
    ensures WellFormedCommand(PeekCommand(address, length), "peek", address, length)
  {
    CommandOfTokens("peek", address, length);
  }

  /** The 4-byte little-endian length header for `command`:
      `(command.len() + 2) as u32`, the 2 being the CRLF that follows. */
  function LengthHeader(command: string): seq<byte>
  {
    LeBytes(WrapU32(|Utf8(command)| + 2))
  }

  /** The second transfer: the command's bytes followed by CRLF. */
  function CommandFrame(command: string): seq<byte>
  {
    Utf8(command + "\r\n")
  }

  /** The header announces the length of the frame that follows, and the
      frame is the command's bytes and then `\r\n`. */
  lemma HeaderAnnouncesFrame(command: string)
    requires |Utf8(command)| + 2 < U32_LIMIT
    ensures CommandFrame(command) == Utf8(command) + [0x0D, 0x0A]
    ensures FromLe(LengthHeader(command)) == |CommandFrame(command)|
  {
    Utf8Append(command, "\r\n");
    assert Utf8("\r\n") == [0x0D, 0x0A] by {
      Utf8OfAscii("\r\n");
    }
    FromLeOfLeBytes(|Utf8(command)| + 2);
  }

  /** Peek and poke frames are 28 bytes long and announced as such. */
  lemma PeekPokeFrameLength(address: u32, x: u32)
    ensures FromLe(LengthHeader(PokeCommand(address, x))) == |CommandFrame(PokeCommand(address, x))| == 28
    ensures FromLe(LengthHeader(PeekCommand(address, x))) == |CommandFrame(PeekCommand(address, x))| == 28
  {
    PokeCommandWellFormed(address, x);
    PeekCommandWellFormed(address, x);
    Utf8OfAscii(PokeCommand(address, x));
    Utf8OfAscii(PeekCommand(address, x));
    HeaderAnnouncesFrame(PokeCommand(address, x));
    HeaderAnnouncesFrame(PeekCommand(address, x));
  }

  // ---------------------------------------------------------------------
  // What each operation asks of the device, in order

  function ConfigurePlan(ep: Endpoint): seq<Request>
  {
    [SetConfig(ep.config), Claim(ep.iface), SetAltSetting(ep.iface, ep.setting)]
  }

  function SendPlan(ep: Endpoint, command: string): seq<Request>
  {
    ConfigurePlan(ep) + [BulkOut(ep.address, LengthHeader(command), SEND_TIMEOUT_SECS),
                         BulkOut(ep.address, CommandFrame(command), SEND_TIMEOUT_SECS)]
  }

  /** The two reads of `receive_bytes`: the size header, then the payload. */
  function ReadsPlan(ep: Endpoint, bufLength: nat): seq<Request>
  {
    [BulkIn(ep.address, 4, RECEIVE_TIMEOUT_SECS), BulkIn(ep.address, bufLength, RECEIVE_TIMEOUT_SECS)]
  }

  function ReceivePlan(ep: Endpoint, bufLength: nat): seq<Request>
  {
    ConfigurePlan(ep) + ReadsPlan(ep, bufLength)
  }

  /** `send_command` makes exactly two bulk writes, both to the write
      endpoint: the header announcing the frame's length, then the frame. */
  lemma SendPlanWrites(ep: Endpoint, command: string)
    requires |Utf8(command)| + 2 < U32_LIMIT
    ensures var plan := SendPlan(ep, command);
      && |plan| == 5 && plan[..3] == ConfigurePlan(ep)
      && plan[3] == BulkOut(ep.address, LengthHeader(command), SEND_TIMEOUT_SECS)
      && plan[4] == BulkOut(ep.address, Utf8(command) + [0x0D, 0x0A], SEND_TIMEOUT_SECS)
      && FromLe(plan[3].data) == |plan[4].data|
      && forall k | 0 <= k < |plan| :: IsBulk(plan[k]) ==> plan[k].BulkOut? && plan[k].endpoint == ep.address
  {
    HeaderAnnouncesFrame(command);
  }

  // ---------------------------------------------------------------------
  // The transfers

  /** `configure_endpoint`: set the configuration, claim the interface, select
      the alternate setting; the first step that fails ends it. */
  method ConfigureEndpoint(handle: DeviceHandle, ep: Endpoint) returns (s: Status)
    requires handle.Valid()
    modifies handle
    ensures handle.Valid()
    ensures handle.trace == old(handle.trace) + Run(handle.device, old(handle.calls), ConfigurePlan(ep)).issued
    ensures s == Run(handle.device, old(handle.calls), ConfigurePlan(ep)).status
  {
    ghost var start := handle.calls;
    ghost var device := handle.device;
    RunCons(device, start, SetConfig(ep.config), [Claim(ep.iface), SetAltSetting(ep.iface, ep.setting)]);
    RunCons(device, start + 1, Claim(ep.iface), [SetAltSetting(ep.iface, ep.setting)]);
    RunCons(device, start + 2, SetAltSetting(ep.iface, ep.setting), []);
    assert [SetConfig(ep.config)] + [Claim(ep.iface), SetAltSetting(ep.iface, ep.setting)] == ConfigurePlan(ep);
    s := handle.SetActiveConfiguration(ep.config);
    if s.Err? {
      return;
    }
    s := handle.ClaimInterface(ep.iface);
    if s.Err? {
      return;
    }
    s := handle.SetAlternateSetting(ep.iface, ep.setting);
  }

  /** `send_command`: configure the write endpoint, then write the length
      header and the CRLF-terminated command. */
  method SendCommand(handle: DeviceHandle, writeEndpoint: Endpoint, command: string) returns (s: Status)
    requires handle.Valid()
    modifies handle
    ensures handle.Valid()
    ensures handle.trace == old(handle.trace) + Run(handle.device, old(handle.calls), SendPlan(writeEndpoint, command)).issued
    ensures s == Run(handle.device, old(handle.calls), SendPlan(writeEndpoint, command)).status
  {
    ghost var start := handle.calls;
    ghost var device := handle.device;
    ghost var header := BulkOut(writeEndpoint.address, LengthHeader(command), SEND_TIMEOUT_SECS);
    ghost var frame := BulkOut(writeEndpoint.address, CommandFrame(command), SEND_TIMEOUT_SECS);
    assert [header] + [frame] == [header, frame];
    RunAppend(device, start, ConfigurePlan(writeEndpoint), [header, frame]);
    RunCons(device, start + 3, header, [frame]);
    RunCons(device, start + 4, frame, []);
    s := ConfigureEndpoint(handle, writeEndpoint);
    if s.Err? {
      return;
    }
    RunStopsAtFirstFailure(device, start, ConfigurePlan(writeEndpoint));
    s := handle.WriteBulk(writeEndpoint.address, LengthHeader(command), SEND_TIMEOUT_SECS);
    if s.Err? {
      return;
    }
    s := handle.WriteBulk(writeEndpoint.address, CommandFrame(command), SEND_TIMEOUT_SECS);
  }

  /** The reads of `receive_bytes` once the endpoint is configured: the
      4-byte size header, then the payload into `buf`. A header that differs
      from `length` is only reported (`mismatch`); the payload read happens
      anyway. */
  method ReadHeaderThenPayload(handle: DeviceHandle, readEndpoint: Endpoint, buf: array<byte>, length: u32)
    returns (s: Status, ghost mismatch: bool)
    requires handle.Valid()
    modifies handle, buf
    ensures handle.Valid()
    ensures handle.trace == old(handle.trace) + Run(handle.device, old(handle.calls), ReadsPlan(readEndpoint, buf.Length)).issued
    ensures s == Run(handle.device, old(handle.calls), ReadsPlan(readEndpoint, buf.Length)).status
    ensures buf[..] == if s.Ok? then Received(old(buf[..]), DataOf(handle.device(old(handle.calls) + 1))) else old(buf[..])
    ensures mismatch <==> && handle.device(old(handle.calls)).Done?
                          && FromLe(Received([0, 0, 0, 0], DataOf(handle.device(old(handle.calls))))) != length
  {
    ghost var start := handle.calls;
    ghost var device := handle.device;
    ghost var sizeRead := BulkIn(readEndpoint.address, 4, RECEIVE_TIMEOUT_SECS);
    ghost var payloadRead := BulkIn(readEndpoint.address, buf.Length, RECEIVE_TIMEOUT_SECS);
    assert ReadsPlan(readEndpoint, buf.Length) == [sizeRead] + [payloadRead];
    RunCons(device, start, sizeRead, [payloadRead]);
    RunCons(device, start + 1, payloadRead, []);
    mismatch := false;
    var sizeRecv := new byte[4](_ => 0);
    assert sizeRecv[..] == [0, 0, 0, 0];
    s := handle.ReadBulk(readEndpoint.address, sizeRecv, RECEIVE_TIMEOUT_SECS);
    if s.Err? {
      return;
    }
    if FromLe(sizeRecv[..]) != length {
      mismatch := true;
    }
    s := handle.ReadBulk(readEndpoint.address, buf, RECEIVE_TIMEOUT_SECS);
  }

  /** `receive_bytes`: configure the read endpoint, then read the size
      header and the payload, sized by `buf`. */
  method ReceiveBytes(handle: DeviceHandle, readEndpoint: Endpoint, buf: array<byte>, length: u32)
    returns (s: Status, ghost mismatch: bool)
    requires handle.Valid()
    modifies handle, buf
    ensures handle.Valid()
    ensures handle.trace == old(handle.trace) + Run(handle.device, old(handle.calls), ReceivePlan(readEndpoint, buf.Length)).issued
    ensures s == Run(handle.device, old(handle.calls), ReceivePlan(readEndpoint, buf.Length)).status
    ensures buf[..] == if s.Ok? then Received(old(buf[..]), DataOf(handle.device(old(handle.calls) + 4))) else old(buf[..])
    ensures mismatch <==> && Run(handle.device, old(handle.calls), ConfigurePlan(readEndpoint)).status.Ok?
                          && handle.device(old(handle.calls) + 3).Done?
                          && FromLe(Received([0, 0, 0, 0], DataOf(handle.device(old(handle.calls) + 3)))) != length
  {
    ghost var start := handle.calls;
    ghost var device := handle.device;
    RunAppend(device, start, ConfigurePlan(readEndpoint), ReadsPlan(readEndpoint, buf.Length));
    mismatch := false;
    s := ConfigureEndpoint(handle, readEndpoint);
    if s.Err? {
      return;
    }
    RunStopsAtFirstFailure(device, start, ConfigurePlan(readEndpoint));
    assert handle.calls == start + 3;
    s, mismatch := ReadHeaderThenPayload(handle, readEndpoint, buf, length);
  }

  /** One `write_dword` call as the inventory layer sees it: what it
      wrote, what it returned and the requests it issued. */
  datatype DwordWrite = DwordWrite(address: u32, value: u32, status: Status, issued: seq<Request>)

  function IssuedOf(w: DwordWrite): seq<Request>
  {
    w.issued
  }

  /** The requests issued by the calls of a log, in call order. */
  function IssuedBy(log: seq<DwordWrite>): seq<Request>
  {
    FlatMap(log, IssuedOf)
  }

  lemma IssuedBySingle(w: DwordWrite)
    ensures IssuedBy([w]) == w.issued
  {
    assert FlatMap([w], IssuedOf) == IssuedOf(w) + FlatMap([w][1..], IssuedOf);
    assert [w][1..] == [];
  }

  lemma IssuedByAppend(a: seq<DwordWrite>, b: seq<DwordWrite>)
    ensures IssuedBy(a + b) == IssuedBy(a) + IssuedBy(b)
  {
    FlatMapAppend(a, b, IssuedOf);
  }

  /** Every bulk request of `qs` is a write to `ep`. */
  ghost predicate OnlyWritesTo(ep: Endpoint, qs: seq<Request>)
  {
    forall k | 0 <= k < |qs| :: IsBulk(qs[k]) ==> qs[k].BulkOut? && qs[k].endpoint == ep.address
  }

  lemma OnlyWritesToAppend(ep: Endpoint, a: seq<Request>, b: seq<Request>)
    requires OnlyWritesTo(ep, a) && OnlyWritesTo(ep, b)
    ensures OnlyWritesTo(ep, a + b)
  {
    assert forall k | |a| <= k < |a + b| :: (a + b)[k] == b[k - |a|];
  }

  /** The device's run of the send plan of one `write_dword` call on `ep`,
      starting at request number `start`. */
  function PokeRun(device: nat -> Reply, start: nat, ep: Endpoint, address: u32, value: u32): RunResult
  {
    Run(device, start, SendPlan(ep, PokeCommand(address, value)))
  }

  /** The device's answer to any `write_dword` call on `ep`: from a request
      number, an address and a value to the run of that poke's send plan. */
  function PokeRuns(device: nat -> Reply, ep: Endpoint): (nat, u32, u32) -> RunResult
  {
    (start: nat, address: u32, value: u32) => PokeRun(device, start, ep, address, value)
  }

  /** `log` is what the calls `run` answers made of `write_dword` calls
      issued one after the other from request number `start` on: each
      entry's requests and status are those of its own call, and each call
      starts where the previous one stopped. */
  ghost predicate SentBy(run: (nat, u32, u32) -> RunResult, start: nat, log: seq<DwordWrite>)
    decreases |log|
  {
    log != [] ==>
      var r := run(start, log[0].address, log[0].value);
      && log[0].issued == r.issued && log[0].status == r.status
      && SentBy(run, start + |log[0].issued|, log[1..])
  }

  /** `log` is what the device made of `write_dword` calls on `ep` issued
      one after the other from request number `start` on. */
  ghost predicate SentFrom(device: nat -> Reply, start: nat, ep: Endpoint, log: seq<DwordWrite>)
  {
    SentBy(PokeRuns(device, ep), start, log)
  }

  lemma SentFromSingle(device: nat -> Reply, start: nat, ep: Endpoint, w: DwordWrite)
    requires w.issued == PokeRun(device, start, ep, w.address, w.value).issued
    requires w.status == PokeRun(device, start, ep, w.address, w.value).status
    ensures SentFrom(device, start, ep, [w])
  {
    assert [w][1..] == [];
  }

  /** Two runs of calls, the second starting where the first stopped, are
      one run. */
  lemma {:induction false} SentByAppend(run: (nat, u32, u32) -> RunResult, start: nat, mid: nat, a: seq<DwordWrite>, b: seq<DwordWrite>)
    requires mid == start + |IssuedBy(a)|
    requires SentBy(run, start, a) && SentBy(run, mid, b)
    ensures SentBy(run, start, a + b)
    decreases |a|
  {
    if a == [] {
      assert a + b == b;
    } else {
      assert (a + b)[0] == a[0] && (a + b)[1..] == a[1..] + b;
      assert IssuedBy(a) == a[0].issued + IssuedBy(a[1..]);
      SentByAppend(run, start + |a[0].issued|, mid, a[1..], b);
    }
  }

  /** The device's answers leave no freedom: two logs of the same pokes,
      both sent from the same request number, are the same log. */
  lemma {:induction false} SentByUnique(run: (nat, u32, u32) -> RunResult, start: nat, a: seq<DwordWrite>, b: seq<DwordWrite>)
    requires SentBy(run, start, a) && SentBy(run, start, b)
    requires |a| == |b| && forall i | 0 <= i < |a| :: a[i].address == b[i].address && a[i].value == b[i].value
    ensures a == b
    decreases |a|
  {
    if a != [] {
      SentByUnique(run, start + |a[0].issued|, a[1..], b[1..]);
      assert a == [a[0]] + a[1..] && b == [b[0]] + b[1..];
    }
  }

  lemma SentFromUnique(device: nat -> Reply, start: nat, ep: Endpoint, a: seq<DwordWrite>, b: seq<DwordWrite>)
    requires SentFrom(device, start, ep, a) && SentFrom(device, start, ep, b)
    requires |a| == |b| && forall i | 0 <= i < |a| :: a[i].address == b[i].address && a[i].value == b[i].value
    ensures a == b
  {
    SentByUnique(PokeRuns(device, ep), start, a, b);
  }

  /** One more group of calls `more` after the calls `log`, the second
      starting where the first stopped: the logs, the traces and the device
      runs all compose. */
  lemma CallsAppend(device: nat -> Reply, start: nat, mid: nat, ep: Endpoint,
                    log0: seq<DwordWrite>, trace0: seq<Request>, log: seq<DwordWrite>, more: seq<DwordWrite>)
    requires mid == start + |IssuedBy(log)|
    requires OnlyWritesTo(ep, IssuedBy(log)) && OnlyWritesTo(ep, IssuedBy(more))
    requires SentFrom(device, start, ep, log) && SentFrom(device, mid, ep, more)
    ensures (log0 + log) + more == log0 + (log + more)
    ensures (trace0 + IssuedBy(log)) + IssuedBy(more) == trace0 + IssuedBy(log + more)
    ensures OnlyWritesTo(ep, IssuedBy(log + more))
    ensures SentFrom(device, start, ep, log + more)
  {
    IssuedByAppend(log, more);
    SentByAppend(PokeRuns(device, ep), start, mid, log, more);
    AppendAssoc(log0, log, more);
    AppendAssoc(trace0, IssuedBy(log), IssuedBy(more));
    OnlyWritesToAppend(ep, IssuedBy(log), IssuedBy(more));
  }

  class Switch {
    const readEndpoint: Endpoint
    const writeEndpoint: Endpoint
    const handle: DeviceHandle
    /** The `write_dword` calls made so far, with what each returned. */
    ghost var dwordLog: seq<DwordWrite>

    ghost predicate Valid()
      reads this, handle
    {
      handle.Valid()
    }

    constructor (readEndpoint: Endpoint, writeEndpoint: Endpoint, handle: DeviceHandle)
      requires handle.Valid()
      ensures Valid() && dwordLog == []
      ensures this.readEndpoint == readEndpoint && this.writeEndpoint == writeEndpoint && this.handle == handle
    {
      this.readEndpoint := readEndpoint;
      this.writeEndpoint := writeEndpoint;
      this.handle := handle;
      dwordLog := [];
    }

    /** `write_dword`: send `poke <address> <byte-swapped value>`. It issues
        the send plan on the write endpoint and nothing else. */
    method WriteDword(address: u32, value: u32) returns (s: Status)
      requires Valid()
      modifies this, handle
      ensures Valid()
      ensures handle.trace == old(handle.trace) + Run(handle.device, old(handle.calls), SendPlan(writeEndpoint, PokeCommand(address, value))).issued
      ensures s == Run(handle.device, old(handle.calls), SendPlan(writeEndpoint, PokeCommand(address, value))).status
      ensures dwordLog == old(dwordLog)
                + [DwordWrite(address, value, s, Run(handle.device, old(handle.calls), SendPlan(writeEndpoint, PokeCommand(address, value))).issued)]
      ensures OnlyWritesTo(writeEndpoint, Run(handle.device, old(handle.calls), SendPlan(writeEndpoint, PokeCommand(address, value))).issued)
    {
      ghost var start := handle.calls;
      s := SendCommand(handle, writeEndpoint, PokeCommand(address, value));
      dwordLog := dwordLog + [DwordWrite(address, value, s, handle.trace[|old(handle.trace)|..])];
      RunStopsAtFirstFailure(handle.device, start, SendPlan(writeEndpoint, PokeCommand(address, value)));
      WriteDwordTouchesOnlyWriteEndpoint(address, value);
    }

    /** `read_bytes`: send `peek <address> <length>`, then receive into
        `buf`. If the send fails nothing is read. */
    method ReadBytes(address: u32, buf: array<byte>, length: u32) returns (s: Status)
      requires Valid()
      modifies handle, buf
      ensures Valid()
      ensures handle.trace == old(handle.trace) + Run(handle.device, old(handle.calls), ReadPlan(address, buf.Length, length)).issued
      ensures s == Run(handle.device, old(handle.calls), ReadPlan(address, buf.Length, length)).status
      ensures buf[..] == if s.Ok? then Received(old(buf[..]), DataOf(handle.device(old(handle.calls) + 9))) else old(buf[..])
    {
      ghost var start := handle.calls;
      RunAppend(handle.device, start, SendPlan(writeEndpoint, PeekCommand(address, length)), ReceivePlan(readEndpoint, buf.Length));
      s := SendCommand(handle, writeEndpoint, PeekCommand(address, length));
      if s.Err? {
        return;
      }
      RunStopsAtFirstFailure(handle.device, start, SendPlan(writeEndpoint, PeekCommand(address, length)));
      ghost var mismatch;
      s, mismatch := ReceiveBytes(handle, readEndpoint, buf, length);
    }

    /** Everything `read_bytes` may ask of the device, in order. */
    function ReadPlan(address: u32, bufLength: nat, length: u32): seq<Request>
    {
      SendPlan(writeEndpoint, PeekCommand(address, length)) + ReceivePlan(readEndpoint, bufLength)
    }

    /** A `write_dword` only writes, and only to the write endpoint. */
    lemma WriteDwordTouchesOnlyWriteEndpoint(address: u32, value: u32)
      ensures var plan := SendPlan(writeEndpoint, PokeCommand(address, value));
        forall k | 0 <= k < |plan| :: IsBulk(plan[k]) ==> plan[k].BulkOut? && plan[k].endpoint == writeEndpoint.address
    {
      PokeCommandWellFormed(address, value);
      Utf8OfAscii(PokeCommand(address, value));
      SendPlanWrites(writeEndpoint, PokeCommand(address, value));
    }

    /** In `read_bytes` every read comes after the whole peek was sent. */
    lemma ReadsFollowPeek(address: u32, bufLength: nat, length: u32, k: nat)
      requires k < |ReadPlan(address, bufLength, length)|
      requires ReadPlan(address, bufLength, length)[k].BulkIn?
      ensures k >= 5 + 3
      ensures ReadPlan(address, bufLength, length)[..5] == SendPlan(writeEndpoint, PeekCommand(address, length))
    {
    }
  }

  datatype Connection = Connected(switch: Switch) | ReadEndpointMissing | WriteEndpointMissing

  /** `Switch::new` once the device is open: look up the read (IN) and the
      write (OUT) endpoint; a missing one is fatal. */
  method Connect(configs: Configurations, handle: DeviceHandle) returns (r: Connection)
    requires handle.Valid()
    ensures r.ReadEndpointMissing? <==> DeviceMatches(configs, In) == []
    ensures r.WriteEndpointMissing? <==> DeviceMatches(configs, In) != [] && DeviceMatches(configs, Out) == []
    ensures r.Connected? ==>
              && fresh(r.switch) && r.switch.Valid() && r.switch.handle == handle && r.switch.dwordLog == []
              && r.switch.readEndpoint == DeviceMatches(configs, In)[0]
              && r.switch.writeEndpoint == DeviceMatches(configs, Out)[0]
  {
    var readEndpoint := GetSwitchEndpoint(configs, In);
    if readEndpoint.None? {
      return ReadEndpointMissing;
    }
    var writeEndpoint := GetSwitchEndpoint(configs, Out);
    if writeEndpoint.None? {
      return WriteEndpointMissing;
    }
    var sw := new Switch(readEndpoint.value, writeEndpoint.value, handle);
    r := Connected(sw);
  }
}
