/** Discovery of the webhook IP address from the host's interface addresses (`getLocalIP`). */
module LocalIP {
  import opened Wrappers

  /** One entry of the interface-address list, reduced to what the search looks at:
      whether it is an IP network address (`*net.IPNet`), whether its IP is a
      loopback address, whether it has a 4-byte form (`To4() != nil`), and the
      textual form of the IP. */
  datatype Address = Address(isIPNet: bool, isLoopback: bool, isIPv4: bool, text: string)

  /** What enumerating the interfaces (`net.InterfaceAddrs`) produced. */
  datatype Enumeration = EnumerationFailed | Enumerated(addrs: seq<Address>)

  datatype LocalIPError =
    | InterfaceAddrsFailed  // the enumeration's own error is passed through
    | NoWebhookIP           // "couldn't obtain a webhook IP address"

  /** An address the webhook may be reached on. */
  predicate Usable(a: Address) {
    a.isIPNet && !a.isLoopback && a.isIPv4
  }

  /** Index of the first usable address in list order, if any. */
  function FirstUsable(addrs: seq<Address>): (r: Option<nat>)
    ensures r.Some? ==> r.value < |addrs| && Usable(addrs[r.value])
    ensures r.Some? ==> forall j :: 0 <= j < r.value ==> !Usable(addrs[j])
    ensures r.None? <==> forall j :: 0 <= j < |addrs| ==> !Usable(addrs[j])
  {
    if addrs == [] then None
    else if Usable(addrs[0]) then Some(0)
    else match FirstUsable(addrs[1..])
      case None => None
      case Some(k) => Some(k + 1)
  }

  /** The address `getLocalIP` settles on, or the error it reports. */
  function WebhookIP(e: Enumeration): (r: Result<string, LocalIPError>)
    ensures e.EnumerationFailed? ==> r == Err(InterfaceAddrsFailed)
    ensures e.Enumerated? ==>
      (r.Ok? <==> exists i :: 0 <= i < |e.addrs| && Usable(e.addrs[i]))
    ensures e.Enumerated? && r.Ok? ==>
      exists i :: 0 <= i < |e.addrs| && Usable(e.addrs[i]) && r.value == e.addrs[i].text &&
        forall j :: 0 <= j < i ==> !Usable(e.addrs[j])
    ensures e.Enumerated? && r.Err? ==> r.error == NoWebhookIP
  {
    match e
    case EnumerationFailed => Err(InterfaceAddrsFailed)
    case Enumerated(addrs) =>
      match FirstUsable(addrs)
      case Some(i) => Ok(addrs[i].text)
      case None => Err(NoWebhookIP)
  }

  /** The search loop with early return over the enumerated addresses. */
  method GetLocalIP(e: Enumeration) returns (r: Result<string, LocalIPError>)
    ensures r == WebhookIP(e)
  {
    if e.EnumerationFailed? {
      return Err(InterfaceAddrsFailed);
    }
    var addrs := e.addrs;
    for i := 0 to |addrs|
      invariant forall j :: 0 <= j < i ==> !Usable(addrs[j])
    {
      var addr := addrs[i];
      if addr.isIPNet && !addr.isLoopback {
        if addr.isIPv4 {
          return Ok(addr.text);
        }
      }
    }
    return Err(NoWebhookIP);
  }
}
