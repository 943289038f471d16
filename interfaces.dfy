/**
 * `select_interface`: keeps the non-loopback IPv4 interfaces and asks for one by its
 * 1-based number until a valid number is typed. The interface list and the lines
 * typed are parameters; `None` stands for a failed enumeration or a failed read.
 */
module Interfaces {
  import opened Wrappers
  import opened Text
  import opened Net

  /** The address `if_addrs` reports for an interface; an IPv6 address is kept opaque. */
  datatype IfAddr = V4(ip: Ipv4) | V6(bits: nat)

  /** An interface as `if_addrs::get_if_addrs` lists it. */
  datatype IfaceInfo = IfaceInfo(name: string, isLoopback: bool, addr: IfAddr)

  /** `NetworkInterface`: a name and an IPv4 address. */
  datatype NetworkInterface = NetworkInterface(name: string, ip: Ipv4)

  /** The interfaces that can serve DHCP: not loopback, with an IPv4 address. */
  predicate Eligible(iface: IfaceInfo)
  {
    !iface.isLoopback && iface.addr.V4?
  }

  function ToNetworkInterface(iface: IfaceInfo): NetworkInterface
    requires iface.addr.V4?
  {
    NetworkInterface(iface.name, iface.addr.ip)
  }

  /** The `filter_map` in `select_interface`: the eligible interfaces, converted. */
  function ValidInterfaces(ifaces: seq<IfaceInfo>): (r: seq<NetworkInterface>)
    ensures |r| <= |ifaces|
    ensures forall n :: n in r ==> exists i :: 0 <= i < |ifaces| && Eligible(ifaces[i]) && n == ToNetworkInterface(ifaces[i])
    ensures forall i :: 0 <= i < |ifaces| && Eligible(ifaces[i]) ==> ToNetworkInterface(ifaces[i]) in r
  {
    if ifaces == [] then []
    else
      var rest := ValidInterfaces(ifaces[1..]);
      assert forall i :: 1 <= i < |ifaces| ==> ifaces[i] == ifaces[1..][i - 1];
      (if Eligible(ifaces[0]) then [ToNetworkInterface(ifaces[0])] else []) + rest
  }

  /** The filter keeps the original order: it works piecewise on any split of the list. */
  lemma {:induction false} ValidInterfacesAppend(xs: seq<IfaceInfo>, ys: seq<IfaceInfo>)
    ensures ValidInterfaces(xs + ys) == ValidInterfaces(xs) + ValidInterfaces(ys)
  {
    if xs == [] {
      assert xs + ys == ys;
    } else {
      assert (xs + ys)[0] == xs[0] && (xs + ys)[1..] == xs[1..] + ys;
      ValidInterfacesAppend(xs[1..], ys);
    }
  }

  /** One interface is kept, converted, exactly when it is eligible. */
  lemma ValidInterfacesSingle(iface: IfaceInfo)
    ensures ValidInterfaces([iface]) == if Eligible(iface) then [ToNetworkInterface(iface)] else []
  {
    assert [iface][1..] == [];
  }

  /**
   * The interface index a typed line selects: the trimmed line must parse as a
   * `usize` n with 1 <= n <= count, and selects index n - 1.
   */
  function ParseSelection(line: string, count: nat): (r: Option<nat>)
    ensures r.Some? <==> ParseUsize(Trim(line)).Some? && 1 <= ParseUsize(Trim(line)).value <= count
    ensures r.Some? ==> r.value < count && r.value + 1 == ParseUsize(Trim(line)).value
  {
    match ParseUsize(Trim(line))
    case Some(n) => if 0 < n <= count then Some(n - 1) else None
    case None => None
  }

  /** The number the list shows for an interface, typed and ended with a newline, selects it. */
  lemma TypedNumberSelects(n: nat, count: nat)
    requires 1 <= n <= count && count <= UsizeMax
    ensures ParseSelection(Decimal(n) + "\n", count) == Some(n - 1)
  {
    var d := Decimal(n);
    var line := d + "\n";
    assert line[..|line| - 1] == d;
    assert TrimStart(line) == line;
    assert TrimEnd(line) == TrimEnd(d) == d;
    ParseDecimal(n);
  }

  /** How the selection ends: an interface, no interface (the caller exits), or still waiting for input. */
  datatype Selection = Chosen(iface: NetworkInterface) | NoInterface | AwaitingInput

  /** The prompt loop over the lines typed (`None` when a read fails). */
  function Prompt(valid: seq<NetworkInterface>, lines: seq<Option<string>>): Selection
  {
    if lines == [] then AwaitingInput
    else match lines[0]
      case None => NoInterface
      case Some(line) =>
        match ParseSelection(line, |valid|)
        case Some(i) => Chosen(valid[i])
        case None => Prompt(valid, lines[1..])
  }

  /** The prompt picks the interface named by the first acceptable line, if every line before it was read and refused. */
  lemma {:induction false} PromptChoosesFirstAccepted(valid: seq<NetworkInterface>, lines: seq<Option<string>>, k: nat)
    requires k < |lines| && lines[k].Some? && ParseSelection(lines[k].value, |valid|).Some?
    requires forall j :: 0 <= j < k ==> lines[j].Some? && ParseSelection(lines[j].value, |valid|).None?
    ensures Prompt(valid, lines) == Chosen(valid[ParseSelection(lines[k].value, |valid|).value])
  {
    if k > 0 {
      assert forall j :: 0 <= j < k - 1 ==> lines[1..][j] == lines[j + 1];
      PromptChoosesFirstAccepted(valid, lines[1..], k - 1);
    }
  }

  /** Lines that are all read but refused leave the prompt waiting: it never gives up by itself. */
  lemma {:induction false} PromptKeepsAsking(valid: seq<NetworkInterface>, lines: seq<Option<string>>)
    requires forall j :: 0 <= j < |lines| ==> lines[j].Some? && ParseSelection(lines[j].value, |valid|).None?
    ensures Prompt(valid, lines) == AwaitingInput
  {
    if lines != [] {
      PromptKeepsAsking(valid, lines[1..]);
    }
  }

  /**
   * `select_interface`: no interface when enumeration fails or nothing is eligible;
   * otherwise the prompt loop over the typed lines.
   */
  method SelectInterface(enumerated: Option<seq<IfaceInfo>>, lines: seq<Option<string>>) returns (r: Selection)
    ensures enumerated.None? ==> r == NoInterface
    ensures enumerated.Some? && ValidInterfaces(enumerated.value) == [] ==> r == NoInterface
    ensures enumerated.Some? && ValidInterfaces(enumerated.value) != [] ==> r == Prompt(ValidInterfaces(enumerated.value), lines)
    ensures r.Chosen? ==> enumerated.Some? && r.iface in ValidInterfaces(enumerated.value)
  {
    if enumerated.None? {
      return NoInterface;
    }
    var valid := ValidInterfaces(enumerated.value);
    if valid == [] {
      return NoInterface;
    }
    var i := 0;
    while i < |lines|
      invariant 0 <= i <= |lines|
      invariant Prompt(valid, lines[i..]) == Prompt(valid, lines)
    {
      assert lines[i..][1..] == lines[i + 1..];
      if lines[i].None? {
        return NoInterface;
      }
      var choice := ParseSelection(lines[i].value, |valid|);
      if choice.Some? {
        return Chosen(valid[choice.value]);
      }
      i := i + 1;
    }
    return AwaitingInput;
  }
}
