/** What one pass of the server loop in `main` does with a datagram it has
    received, without the socket: decode it, choose the address, build the
    reply. Receiving, sending and logging are not modelled. */
module Server {
  import opened Wrappers
  import opened PyStr
  import opened Query
  import opened Selection

  /** The Redis hash `pytinydns.domains`, or a server that cannot be reached. */
  datatype Store = Down | Up(domains: map<string, string>)

  /** `r_server.hget('pytinydns.domains', domain)`. */
  function Hget(store: Store, domain: string): (r: StoreLookup)
    ensures r.Found? <==> store.Up? && domain in store.domains
    ensures r.Found? ==> r.record == store.domains[domain]
    ensures r == Unavailable <==> store.Down?
  {
    match store
    case Down => Unavailable
    case Up(domains) => if domain in domains then Found(domains[domain]) else Missing
  }

  /** What becomes of one datagram: the bytes passed to `sendto` (empty for
      a query whose decoded domain is empty), or an exception that ends the
      server loop (a payload the decoder cannot read, or an address that does
      not convert to bytes). */
  datatype Outcome = Sent(packet: seq<byte>) | Crashed

  method HandleDatagram(data: seq<byte>, useRedis: bool, store: Store, hosts: map<string, string>,
                        defaultIp: string) returns (o: Outcome)
    ensures DecodeQuery(data).None? ==> o == Crashed
    ensures DecodeQuery(data).Some? && DecodeQuery(data).value.domain == "" ==> o == Sent([])
    ensures DecodeQuery(data).Some? && DecodeQuery(data).value.domain != "" ==>
              var domain := DecodeQuery(data).value.domain;
              var ip := SelectIp(useRedis, Hget(store, domain), hosts, domain, defaultIp);
              (o.Sent? <==> IpOctets(ip).Some?) &&
              (o.Sent? ==> ReplyLayout(data, IpOctets(ip).value, o.packet))
  {
    var p := NewQuery(data);
    if p.None? {
      return Crashed;
    }
    var lookup := if useRedis then Hget(store, p.value.domain) else Missing;
    var ip := SelectIp(useRedis, lookup, hosts, p.value.domain, defaultIp);
    var reply := BuildReply(p.value, ip);
    if reply.None? {
      return Crashed;
    }
    return Sent(reply.value);
  }
}
