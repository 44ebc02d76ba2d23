# pytinydns, modelled in Dafny

pytinydns is a small DNS server that answers every A-record query it
receives over UDP. It decodes the question name of the query (section 4.1
of RFC 1035). It then picks an address: from a Redis hash, or from a
`domain:ip` host file loaded at startup, falling back to a default address.
Finally it sends back a reply that echoes the question and carries one
A record.

This project models the four pieces of `pytinydns.py` that hold that logic:

- `wrappers.dfy`: `Option` and `Result`. In the decoding and conversion
  functions (`DecodeName`, `DecodeQuery`, `PyInt`, `Octet`, `IpOctets`) a
  `None` stands for a Python exception that nobody catches. In
  `Selection.Consult` and `Resolve` a `None` means that a backend has no
  answer and the next one is asked.
- `pystr.dfy` (module `PyStr`): the Python 2 string behaviour the server
  relies on. A `str` is a string of bytes (`byte`, with `Chars` giving the
  text of a byte string). The module covers `str.split` with a
  one-character separator, `int()` in base 10, and
  `map(lambda x: chr(int(x)), ip.split('.'))`, which turns the address text
  into reply bytes.
- `dns_query.dfy` (module `Query`): the `DNSQuery` class.
  - A `DNSQuery` is never changed once its constructor has run, so it is a
    value: `DnsQuery(data, domain)`.
  - `NewQuery` is the constructor's `while lon != 0` loop. It is proved
    equal to the recursive label walk `DecodeName` / `DecodeQuery`.
  - The wire form of names (`EncodeName`) is its inverse.
  - `BuildReply` appends the reply piece by piece, as `build_reply` does.
- `hosts.dfy` (module `Hosts`): `read_hosts`. `ReadHosts` is the loop over
  the lines, updating the map. It is proved equal to `LoadHosts`, a fold of
  `AddLine` over the lines, and the lemmas about `LoadHosts` state what the
  loaded map holds.
- `selection.dfy` (module `Selection`): the choice of address in the server
  loop (`main`, lines 152-166), written as the function `SelectIp`.
  - The Redis call becomes its outcome, `StoreLookup`.
  - `SelectIp` is proved equal to an independent definition: an ordered
    chain of backends (`Resolve` over `ChainFor`).
- `server.dfy` (module `Server`): one pass of the server loop without the
  socket. It joins the pieces above: decode, look up, select, build.

What pytinydns does in cases a reader may not expect:

- A query whose decoded domain is empty (opcode not 0, or a standard
  query for the root name, whose first length byte is 0) is answered with
  the empty datagram, whatever the address: `build_reply` yields `""` and
  the server sends it. `HandleDatagram` returns `Sent([])` in this case.
- A payload the decoder cannot read ends the server. The `IndexError`
  escapes the loop, which catches only `KeyboardInterrupt`, and the server
  stops. Two things cause it: fewer than 3 bytes, or a standard query whose
  label walk reads a length byte at or past the end. This outcome is
  `Crashed`. A payload of 3 to 12 bytes with a non-zero opcode is answered
  with the empty datagram; it is not an error.
- An address that does not convert to bytes also ends the server. A host
  value `1.2.3.400` or a Redis record `localhost` makes `chr(int(x))` in
  `build_reply` raise `ValueError`, which nothing catches. This outcome is
  `Crashed` too.
- A label whose length runs past the end of the buffer does not fail at
  the slice `data[ini+1:ini+lon+1]`, because Python clips slices; it fails
  at the next length byte. `DecodeName` follows that order. `DecodeNameFails`
  shows that the walk fails exactly when no complete wire-form name
  starting at offset 12 fits in the buffer.
- The value of a host record is the text after the colon without its last
  character. A final line that has no newline therefore loses the last
  character of its address (`RecordLine`, with any last character).
- `main` assigns the result of `read_hosts` to `dns_dict` for `-l`, and
  `read_hosts` returns `None`. The `host_file` key of a config file uses
  the map `read_hosts` fills in. The selection is modelled over that filled map.

## Model

| member | source | states |
|---|---|---|
| PyStr.Split | pytinydns.py:72 | `split` gives one piece more than there are separators, and no piece contains the separator |
| PyStr.JoinSplit | pytinydns.py:72 | joining the pieces with the separator gives back the line |
| PyStr.SplitOne | pytinydns.py:72-79 | a line with exactly one colon splits into the text before it and the text after it |
| PyStr.SplitJoin | pytinydns.py:49 | joined pieces without the separator split back into the same pieces |
| PyStr.PyIntDecimal | pytinydns.py:49 | `int` of the decimal spelling of a number is that number |
| PyStr.PyInt | pytinydns.py:49 | `int` of a non-empty string of decimal digits is their value; `PyIntDecimal` and `PyIntCarriageReturn` carry the rest of its contract |
| PyStr.Octet | pytinydns.py:49 | `chr(int(x))` succeeds exactly when `int(x)` is in 0..255, and the byte has that value; `OctetDecimal` gives its round trip |
| PyStr.OctetDecimal | pytinydns.py:49 | `chr(int(x))` of the decimal spelling of a byte is that byte |
| PyStr.Octets | pytinydns.py:49 | the conversion succeeds exactly when every component converts; the result has one byte per component, in order |
| PyStr.IpOctets | pytinydns.py:49 | an address text gives one byte per dot-separated component |
| PyStr.IpOctetsDotted | pytinydns.py:49 | the dotted decimal text of any non-empty sequence of octets converts back to those octets; a dotted quad gives its 4 octets in order |
| PyStr.PyIntCarriageReturn | pytinydns.py:49 | `int` ignores a carriage return after the digits, so a CRLF host file still gives the right octet |
| Query.Opcode | pytinydns.py:32 | the opcode is a 4-bit value, and it is 0 exactly when bits 3 to 6 of header byte 2 are clear |
| Query.OpcodeBits | pytinydns.py:32 | `Opcode` of a byte equals `(b >> 3) & 15` computed on that byte as a machine byte |
| Query.DecodeName | pytinydns.py:34-39 | the label walk from an offset: a decoded name fits in the buffer after that offset. `DecodeNameShape`, `DecodeNameSound` and `DecodeNameFails` carry the rest of its contract |
| Query.DecodeNameShape | pytinydns.py:33-39 | a decoded name ends in a dot unless it is empty; it is empty exactly when the first length byte is 0 |
| Query.DecodeQuery | pytinydns.py:28-39 | fewer than 3 bytes fail; a non-zero opcode gives the empty domain whatever follows, even in a payload shorter than 12 bytes; a non-empty domain comes from a standard query of more than 14 bytes and ends in a dot |
| Query.NewQuery | pytinydns.py:28-39 | the constructor's loop computes exactly `DecodeQuery`, failing where pytinydns raises `IndexError` and reading nothing out of bounds |
| Query.DecodeNameAt | pytinydns.py:34-39 | wherever the complete wire form of valid labels starts, the walk from there returns the labels each followed by a dot |
| Query.DecodeEncodeName | pytinydns.py:34-39 | decoding the wire form of valid labels, wherever it sits and whatever follows, gives the labels each followed by a dot |
| Query.DecodeQueryRoundTrip | pytinydns.py:32-39 | a standard query whose question is encoded labels decodes to the labels joined with trailing dots |
| Query.GoogleCom | pytinydns.py:32-39 | the question `6 google 3 com 0` decodes to `google.com.` |
| Query.DecodeNameSound | pytinydns.py:35-39 | a successful walk has read the complete wire form of some valid labels, and returns their dotted form |
| Query.DecodeNameFails | pytinydns.py:35-39 | the walk fails exactly when the bytes at the offset hold no complete wire-form name inside the buffer: a missing terminator or a label that overruns the end |
| Query.ReplyLayoutOf | pytinydns.py:44-49 | the concatenated reply pieces have the byte layout `ReplyLayout` describes |
| Query.BuildReply | pytinydns.py:41-50 | for a query whose non-empty domain comes with at least 12 bytes, as every decoded one does: an empty domain gives the empty reply whatever `ip` is. Otherwise the reply exists exactly when `ip` converts. Its layout: bytes 0-1 are the query's id; 2-3 are `81 80`; 4-5 and 6-7 are both the query's QDCOUNT; 8-11 are zero; then the query from offset 12 verbatim, `C0 0C`, `00 01 00 01 00 00 00 3C 00 04`, and the address bytes |
| Query.BuildReplyDottedQuad | pytinydns.py:41-50 | for an address of four dot-separated components that each convert to a byte, however spelled (`010.0.0.1` and `1.2.3.4` followed by a carriage return included), the reply is 16 bytes longer than the query and ends in those 4 bytes, in order |
| Hosts.AddLine | pytinydns.py:72-79 | a comment line (first character `#`) changes nothing, whatever its colons; a record line sets its key to its value; any other line is an error, `EmptyLine` for the empty string |
| Hosts.LoadHosts | pytinydns.py:71-79 | the fold of the lines: a failed load reports the error of one of the file's unacceptable lines. `LoadHostsOk`, `LoadHostsFirstError` and `LoadHostsContents` carry the rest of its contract |
| Hosts.ReadHosts | pytinydns.py:69-79 | the loop over the lines computes exactly `LoadHosts`, stopping at the first bad line |
| Hosts.ErrorSticks | pytinydns.py:73-76 | once a prefix of the file has failed, the whole file fails with the same error |
| Hosts.LoadHostsOk | pytinydns.py:71-79 | the load succeeds exactly when every line is a comment or has exactly one colon |
| Hosts.LoadHostsFirstError | pytinydns.py:71-76 | a failed load reports the error of its first unacceptable line, and all earlier lines are acceptable |
| Hosts.LoadHostsContents | pytinydns.py:71-79 | the map's keys are exactly the keys of the record lines, and each key holds the value of its last record line: later lines overwrite earlier ones, and nothing else is added |
| Hosts.BadLineIsFatal | pytinydns.py:72-76 | a non-comment line without a colon, anywhere in the file, makes the load fail |
| Hosts.RecordLine | pytinydns.py:72-79 | `domain:ip` followed by any last character loads as the single entry `domain -> ip`, the empty domain included |
| Selection.SelectIp | pytinydns.py:152-166 | the answer is the default, a non-empty store record, or the host-map entry. With Redis on, a non-empty record is returned as it is. With Redis off, a domain in the host map gets its mapped address |
| Selection.StoreFallback | pytinydns.py:153-161 | with Redis on, a missing field, an empty record or a failed connection gives `default_ip` |
| Selection.HostsFallback | pytinydns.py:162-166 | with Redis off, a domain not in the host map gets `default_ip` |
| Selection.StoreIgnoresHosts | pytinydns.py:152-161 | with Redis on, the answer does not depend on the host map |
| Selection.HostsIgnoreStore | pytinydns.py:162-166 | with Redis off, the answer does not depend on the store; for a domain in the map, it does not depend on `default_ip` either |
| Selection.Resolve | pytinydns.py:152-166 | the chain answers exactly when some backend answers, and then it answers with the first backend that does |
| Selection.SelectIpIsChainWalk | pytinydns.py:152-166 | the selection equals the walk of the chain "primary backend, then default", and it always answers |
| Server.Hget | pytinydns.py:154 | a reachable store yields the record for a key it holds and a miss otherwise; an unreachable one yields a failure |
| Server.HandleDatagram | pytinydns.py:150-168 | an undecodable payload ends the server; a query whose decoded domain is empty (opcode not 0, or a standard query for the root name) is answered with the empty datagram, whatever the address. Otherwise the reply exists exactly when the selected address converts, and it echoes the query's id and question in the reply layout; an address that does not convert ends the server |

## Left out

- The UDP socket, `recvfrom`, `sendto`, the `while 1` loop and its `KeyboardInterrupt` exit (lines 145-172): I/O. `HandleDatagram` covers one pass of the loop without them.
- The Redis client (`redis.Redis`, `hget`, lines 143 and 154) is a foreign library. The model keeps only the outcome of the call (`StoreLookup`), or a map standing for the hash (`Server.Store`).
- Option parsing with `getopt` in `main` and `ConfigParser` in `read_config` (lines 82-138): configuration built on library calls. Their results (`use_redis`, `default_ip`, the host map) are parameters.
- Opening the host file in `read_hosts` (lines 64-68), and its "not found" exit: file I/O. The loader takes the lines the file iterator yields.
- `print` logging and `print_help`: output only.
- `redis_import.py`: it stores records with Redis `set`, while the server reads them with `hget` from the hash `pytinydns.domains`. Its line classification repeats lines 71-79, which `Hosts` models.
- NXDOMAIN replies, forwarding to an external resolver and several processes sharing the port: no code for them exists in `pytinydns.py`.
- PyStr.PyInt: models `int()` as optional white space, an optional sign, decimal digits and optional white space. Other spellings that Python 2's `int` may also accept, such as white space between the sign and the digits, are treated as failures.
