/** Which address the server answers with (the body of the server loop in
    `main` between decoding and `build_reply`), lifted out as a function of
    its inputs. The Redis client itself is not modelled; only the outcome of
    its `hget` call is. */
module Selection {
  import opened Wrappers

  /** The outcome of `r_server.hget('pytinydns.domains', domain)`: the stored
      string, `None` for a missing field, or an exception (no connection). */
  datatype StoreLookup = Found(record: string) | Missing | Unavailable

  /** The address for `domain`. With Redis on, a non-empty stored record
      wins and everything else (a missing field, an empty record, a failed
      connection, which sets `a_record` to `default_ip`) gives `default_ip`.
      With Redis off, the host map is consulted, and `default_ip` answers
      the names it lacks. */
  function SelectIp(useRedis: bool, lookup: StoreLookup, hosts: map<string, string>,
                    domain: string, defaultIp: string): (ip: string)
    ensures ip == defaultIp
            || (useRedis && lookup == Found(ip) && ip != "")
            || (!useRedis && domain in hosts && hosts[domain] == ip)
    ensures useRedis && lookup.Found? && lookup.record != "" ==> ip == lookup.record
    ensures !useRedis && domain in hosts ==> ip == hosts[domain]
  {
    if useRedis then
      var aRecord: Option<string> :=
        match lookup
        case Found(s) => Some(s)
        case Missing => None
        case Unavailable => Some(defaultIp);
      if aRecord.Some? && aRecord.value != "" then aRecord.value else defaultIp
    else if domain in hosts then hosts[domain]
    else defaultIp
  }

  /** A store that has no usable record, or cannot be reached, leaves the
      default address; a store failure never escapes. */
  lemma StoreFallback(lookup: StoreLookup, hosts: map<string, string>, domain: string, defaultIp: string)
    requires lookup == Missing || lookup == Unavailable || lookup == Found("")
    ensures SelectIp(true, lookup, hosts, domain, defaultIp) == defaultIp
  {
  }

  /** With Redis off, a name missing from the host map gets the default address. */
  lemma HostsFallback(lookup: StoreLookup, hosts: map<string, string>, domain: string, defaultIp: string)
    requires domain !in hosts
    ensures SelectIp(false, lookup, hosts, domain, defaultIp) == defaultIp
  {
  }

  /** With Redis on, the host map is never consulted. */
  lemma StoreIgnoresHosts(lookup: StoreLookup, hosts1: map<string, string>, hosts2: map<string, string>,
                          domain: string, defaultIp: string)
    ensures SelectIp(true, lookup, hosts1, domain, defaultIp) == SelectIp(true, lookup, hosts2, domain, defaultIp)
  {
  }

  /** With Redis off, the store is never consulted; and a name in the host map
      does not depend on the default address either. */
  lemma HostsIgnoreStore(lookup1: StoreLookup, lookup2: StoreLookup, hosts: map<string, string>,
                         domain: string, defaultIp1: string, defaultIp2: string)
    ensures SelectIp(false, lookup1, hosts, domain, defaultIp1) == SelectIp(false, lookup2, hosts, domain, defaultIp1)
    ensures domain in hosts ==>
              SelectIp(false, lookup1, hosts, domain, defaultIp1) == SelectIp(false, lookup2, hosts, domain, defaultIp2)
  {
  }

  // ---------------------------------------------------------------------
  // The same rule as an ordered chain of backends

  /** A source of answers: the host map, the Redis store, or the default address. */
  datatype Backend = StaticTable(table: map<string, string>) | LiveStore(lookup: StoreLookup) | DefaultIp(ip: string)

  /** The definitive answer of one backend, or `None` to fall through. */
  function Consult(b: Backend, domain: string): Option<string>
  {
    match b
    case StaticTable(table) => if domain in table then Some(table[domain]) else None
    case LiveStore(lookup) => if lookup.Found? && lookup.record != "" then Some(lookup.record) else None
    case DefaultIp(ip) => Some(ip)
  }

  /** The answer of the first backend that gives one. */
  function Resolve(chain: seq<Backend>, domain: string): (r: Option<string>)
    ensures r.Some? <==> exists i :: 0 <= i < |chain| && Consult(chain[i], domain).Some?
    ensures r.Some? ==> exists i :: 0 <= i < |chain| && Consult(chain[i], domain) == r &&
                          forall j :: 0 <= j < i ==> Consult(chain[j], domain).None?
  {
    if chain == [] then None
    else if Consult(chain[0], domain).Some? then Consult(chain[0], domain)
    else
      var r := Resolve(chain[1..], domain);
      assert forall i :: 1 <= i < |chain| ==> chain[i] == chain[1..][i - 1];
      r
  }

  /** The chain a run of the server uses: one primary backend, then the default. */
  function ChainFor(useRedis: bool, lookup: StoreLookup, hosts: map<string, string>, defaultIp: string): seq<Backend>
  {
    [if useRedis then LiveStore(lookup) else StaticTable(hosts), DefaultIp(defaultIp)]
  }

  /** The selection rule is the walk of that chain: it always answers, and
      it answers with the first backend that has an answer. */
  lemma SelectIpIsChainWalk(useRedis: bool, lookup: StoreLookup, hosts: map<string, string>,
                            domain: string, defaultIp: string)
    ensures Resolve(ChainFor(useRedis, lookup, hosts, defaultIp), domain)
            == Some(SelectIp(useRedis, lookup, hosts, domain, defaultIp))
  {
    var chain := ChainFor(useRedis, lookup, hosts, defaultIp);
    assert chain[1..] == [DefaultIp(defaultIp)];
    assert chain[1..][1..] == [];
  }
}
