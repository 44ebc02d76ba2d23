/** The `DNSQuery` class of pytinydns: decoding the question of a raw UDP
    payload (section 4.1 of RFC 1035) and building the A-record reply.
    A `DNSQuery` object is never changed after its constructor has run, so
    it is a value here; `NewQuery` is the constructor's loop. */
module Query {
  import opened Wrappers
  import opened PyStr

  /** The decoded query: the payload as received and the dot-terminated
      question name, or "" when the query is not a standard one. */
  datatype DnsQuery = DnsQuery(data: seq<byte>, domain: string)

  /** `(b >> 3) & 15`: the OPCODE field, bits 3 to 6 of header byte 2. */
  function Opcode(b: byte): (op: int)
    ensures 0 <= op < 16
    ensures op == 0 <==> b as int % 128 < 8
  {
    (b as int / 8) % 16
  }

  /** On machine bytes, shifting and masking is dividing and reducing. */
  lemma ShiftMask(c: bv8)
    ensures (c >> 3) & 15 == (c / 8) % 16
  {
  }

  /** The shift-and-mask of pytinydns, computed on the machine byte `c`, is `Opcode`. */
  lemma OpcodeBits(c: bv8)
    ensures Opcode(c as int as byte) == ((c >> 3) & 15) as int
  {
    ShiftMask(c);
    var q := c / 8;
    assert q as int == c as int / 8;
    assert (q % 16) as int == q as int % 16;
  }

  function Min(a: int, b: int): int
  {
    if a <= b then a else b
  }

  /** The label walk of `__init__` from the length byte at `ini`: each label
      `data[ini+1:ini+lon+1]` (a Python slice, clipped at the end) followed by
      ".", until a zero length byte. Reading a length byte at or past the end
      of the buffer raises `IndexError` in pytinydns; here it is `None`. */
  function DecodeName(data: seq<byte>, ini: nat): (r: Option<string>)
    ensures r.Some? ==> ini + |r.value| < |data|
    decreases |data| - ini
  {
    if ini >= |data| then None
    else
      var lon := data[ini] as int;
      if lon == 0 then Some("")
      else
        var part := Chars(data[ini + 1 .. Min(ini + lon + 1, |data|)]);
        match DecodeName(data, ini + lon + 1)
        case None => None
        case Some(rest) => Some(part + "." + rest)
  }

  /** A decoded name ends in a dot unless it is empty, and it is empty
      exactly when the first length byte is zero. */
  lemma {:induction false} DecodeNameShape(data: seq<byte>, ini: nat)
    ensures var r := DecodeName(data, ini);
            && (r.Some? && r.value != "" ==> r.value[|r.value| - 1] == '.' && ini + 2 < |data|)
            && (r == Some("") <==> ini < |data| && data[ini] == 0)
    decreases |data| - ini
  {
    if ini < |data| && data[ini] != 0 {
      DecodeNameShape(data, ini + data[ini] as int + 1);
    }
  }

  /** `DNSQuery(data)`: `data[2]` must exist; a non-standard opcode leaves the
      domain empty without looking at the question; a standard query
      decodes the name that starts at offset 12. */
  function DecodeQuery(data: seq<byte>): (r: Option<DnsQuery>)
    ensures r.Some? ==> r.value.data == data
    ensures |data| < 3 ==> r.None?
    ensures |data| >= 3 && Opcode(data[2]) != 0 ==> r == Some(DnsQuery(data, ""))
    ensures r.Some? && r.value.domain != "" ==>
              Opcode(data[2]) == 0 && |data| > 14 && r.value.domain[|r.value.domain| - 1] == '.'
  {
    if |data| < 3 then None
    else if Opcode(data[2]) != 0 then Some(DnsQuery(data, ""))
    else
      DecodeNameShape(data, 12);
      match DecodeName(data, 12)
      case None => None
      case Some(domain) => Some(DnsQuery(data, domain))
  }

  function Prepend(prefix: string, r: Option<string>): Option<string>
  {
    match r
    case None => None
    case Some(s) => Some(prefix + s)
  }

  /** One step of the walk: a non-zero length byte contributes its label and a dot. */
  lemma DecodeNameStep(data: seq<byte>, ini: nat)
    requires ini < |data| && data[ini] != 0
    ensures DecodeName(data, ini)
            == Prepend(Chars(data[ini + 1 .. Min(ini + data[ini] as int + 1, |data|)]) + ".",
                       DecodeName(data, ini + data[ini] as int + 1))
  {
  }

  lemma PrependPrepend(a: string, b: string, r: Option<string>)
    ensures Prepend(a, Prepend(b, r)) == Prepend(a + b, r)
  {
    if r.Some? {
      assert a + (b + r.value) == (a + b) + r.value;
    }
  }

  /** The constructor `DNSQuery.__init__`: the `while lon != 0` loop appends
      each label and a dot to `domain`. `None` is the `IndexError` raised
      for a payload shorter than 3 bytes or a name without its terminator. */
  method NewQuery(data: seq<byte>) returns (r: Option<DnsQuery>)
    ensures r == DecodeQuery(data)
  {
    if |data| < 3 {
      return None;
    }
    var domain := "";
    var tipo := Opcode(data[2]);
    if tipo == 0 {
      var ini := 12;
      if ini >= |data| {
        return None;
      }
      var lon := data[ini] as int;
      ghost var whole := DecodeName(data, ini);
      if whole.Some? {
        assert domain + whole.value == whole.value;
      }
      while lon != 0
        invariant ini < |data| && lon == data[ini] as int
        invariant DecodeName(data, 12) == Prepend(domain, DecodeName(data, ini))
        decreases |data| - ini
      {
        var part := Chars(data[ini + 1 .. Min(ini + lon + 1, |data|)]) + ".";
        DecodeNameStep(data, ini);
        PrependPrepend(domain, part, DecodeName(data, ini + lon + 1));
        domain := domain + part;
        ini := ini + lon + 1;
        if ini >= |data| {
          return None;
        }
        lon := data[ini] as int;
      }
      assert domain + "" == domain;
    }
    return Some(DnsQuery(data, domain));
  }

  // ---------------------------------------------------------------------
  // The wire form of a name (section 3.1 of RFC 1035) and the round trip

  /** Labels the decoder can read back: non-empty, and short enough for their
      length to fit the length byte (RFC 1035 further limits them to 63). */
  predicate ValidLabels(labels: seq<seq<byte>>)
  {
    forall i :: 0 <= i < |labels| ==> 1 <= |labels[i]| < 256
  }

  /** Length-prefixed labels followed by the zero length byte. */
  function EncodeName(labels: seq<seq<byte>>): (wire: seq<byte>)
    requires ValidLabels(labels)
    ensures |wire| >= 1
  {
    if labels == [] then [0]
    else [|labels[0]| as byte] + labels[0] + EncodeName(labels[1..])
  }

  /** The labels as the server writes a domain: each one followed by ".". */
  function DottedName(labels: seq<seq<byte>>): string
  {
    if labels == [] then "" else Chars(labels[0]) + "." + DottedName(labels[1..])
  }

  /** The bytes from `ini` start with the complete wire form of `labels`. */
  ghost predicate NameAt(data: seq<byte>, ini: nat, labels: seq<seq<byte>>)
  {
    ValidLabels(labels) && ini + |EncodeName(labels)| <= |data| &&
    data[ini .. ini + |EncodeName(labels)|] == EncodeName(labels)
  }

  /** A stretch of bytes is a length byte, a label and a rest exactly when
      its three parts are. */
  lemma SliceParts(data: seq<byte>, ini: nat, n: byte, l: seq<byte>, rest: seq<byte>)
    requires ini + 1 + |l| + |rest| <= |data|
    ensures data[ini .. ini + 1 + |l| + |rest|] == [n] + l + rest
            <==> data[ini] == n && data[ini + 1 .. ini + 1 + |l|] == l &&
                 data[ini + 1 + |l| .. ini + 1 + |l| + |rest|] == rest
  {
    var whole := data[ini .. ini + 1 + |l| + |rest|];
    var wl, dl := whole[1 .. 1 + |l|], data[ini + 1 .. ini + 1 + |l|];
    var wr, dr := whole[1 + |l| ..], data[ini + 1 + |l| .. ini + 1 + |l| + |rest|];
    assert whole[0] == data[ini];
    forall k | 0 <= k < |l| ensures wl[k] == dl[k] {
      assert wl[k] == whole[1 + k];
    }
    forall k | 0 <= k < |rest| ensures wr[k] == dr[k] {
      assert wr[k] == whole[1 + |l| + k];
    }
    assert wl == dl && wr == dr;
    assert whole == [whole[0]] + whole[1 .. 1 + |l|] + whole[1 + |l| ..];
  }

  /** The wire form of a non-empty label sequence, taken apart. */
  lemma NameAtCons(data: seq<byte>, ini: nat, labels: seq<seq<byte>>)
    requires ValidLabels(labels) && labels != []
    ensures NameAt(data, ini, labels) <==>
              ini < |data| && data[ini] as int == |labels[0]| &&
              ini + 1 + |labels[0]| <= |data| && data[ini + 1 .. ini + 1 + |labels[0]|] == labels[0] &&
              NameAt(data, ini + 1 + |labels[0]|, labels[1..])
  {
    var l, rest := labels[0], EncodeName(labels[1..]);
    assert EncodeName(labels) == [|l| as byte] + l + rest;
    if ini + 1 + |l| + |rest| <= |data| {
      SliceParts(data, ini, |l| as byte, l, rest);
    }
  }

  /** Decoding the wire form of valid labels gives the labels each followed by a dot. */
  lemma {:induction false} DecodeNameAt(data: seq<byte>, ini: nat, labels: seq<seq<byte>>)
    requires NameAt(data, ini, labels)
    ensures DecodeName(data, ini) == Some(DottedName(labels))
    decreases |labels|
  {
    if labels == [] {
      assert data[ini] == data[ini .. ini + 1][0];
    } else {
      NameAtCons(data, ini, labels);
      DecodeNameStep(data, ini);
      DecodeNameAt(data, ini + 1 + |labels[0]|, labels[1..]);
    }
  }

  /** Decoding an encoded name, wherever it sits and whatever follows it,
      gives the labels joined with a trailing dot each. */
  lemma DecodeEncodeName(prefix: seq<byte>, labels: seq<seq<byte>>, tail: seq<byte>)
    requires ValidLabels(labels)
    ensures DecodeName(prefix + EncodeName(labels) + tail, |prefix|) == Some(DottedName(labels))
  {
    var data, wire := prefix + EncodeName(labels) + tail, EncodeName(labels);
    assert data[|prefix| .. |prefix| + |wire|] == wire;
    DecodeNameAt(data, |prefix|, labels);
  }

  /** A standard query whose question name is the encoded labels decodes to
      their dotted form. */
  lemma DecodeQueryRoundTrip(header: seq<byte>, labels: seq<seq<byte>>, tail: seq<byte>)
    requires |header| == 12 && Opcode(header[2]) == 0
    requires ValidLabels(labels)
    ensures DecodeQuery(header + EncodeName(labels) + tail)
            == Some(DnsQuery(header + EncodeName(labels) + tail, DottedName(labels)))
  {
    DecodeEncodeName(header, labels, tail);
  }

  lemma GoogleComLabels(google: seq<byte>, com: seq<byte>)
    requires google == [103, 111, 111, 103, 108, 101] && com == [99, 111, 109]
    ensures ValidLabels([google, com])
    ensures EncodeName([google, com]) == [6, 103, 111, 111, 103, 108, 101, 3, 99, 111, 109, 0]
    ensures DottedName([google, com]) == "google.com."
  {
    var labels := [google, com];
    assert labels[1..] == [com] && labels[1..][1..] == [];
    assert EncodeName([com]) == [3] + com + [0];
    assert Chars(google) == "google";
    assert Chars(com) == "com";
    assert DottedName([com]) == "com.";
    assert DottedName(labels) == "google." + DottedName([com]);
  }

  /** The question `6 google 3 com 0` of a standard query decodes to "google.com.". */
  lemma GoogleCom(header: seq<byte>, tail: seq<byte>)
    requires |header| == 12 && Opcode(header[2]) == 0
    ensures var data := header + [6, 103, 111, 111, 103, 108, 101, 3, 99, 111, 109, 0] + tail;
            DecodeQuery(data) == Some(DnsQuery(data, "google.com."))
  {
    var google: seq<byte> := [103, 111, 111, 103, 108, 101];
    var com: seq<byte> := [99, 111, 109];
    GoogleComLabels(google, com);
    DecodeQueryRoundTrip(header, [google, com], tail);
  }

  /** Conversely, a successful walk has read a complete wire-form name. */
  lemma {:induction false} DecodeNameSound(data: seq<byte>, ini: nat) returns (labels: seq<seq<byte>>)
    requires DecodeName(data, ini).Some?
    ensures NameAt(data, ini, labels)
    ensures DecodeName(data, ini) == Some(DottedName(labels))
    decreases |data| - ini
  {
    if data[ini] == 0 {
      labels := [];
      assert data[ini .. ini + 1] == [0];
    } else {
      var next := ini + data[ini] as int + 1;
      DecodeNameStep(data, ini);
      var rest := DecodeNameSound(data, next);
      labels := [data[ini + 1 .. next]] + rest;
      assert labels[1..] == rest;
      NameAtCons(data, ini, labels);
      DecodeNameAt(data, ini, labels);
    }
  }

  /** The walk fails exactly when the bytes from `ini` do not hold a complete
      wire-form name inside the buffer: a missing terminator or a label that
      overruns the end. It never reads out of bounds. */
  lemma DecodeNameFails(data: seq<byte>, ini: nat)
    ensures DecodeName(data, ini).None? <==> forall labels :: !NameAt(data, ini, labels)
  {
    if DecodeName(data, ini).Some? {
      var labels := DecodeNameSound(data, ini);
    } else {
      forall labels | NameAt(data, ini, labels) ensures false {
        DecodeNameAt(data, ini, labels);
      }
    }
  }

  // ---------------------------------------------------------------------
  // build_reply

  /** The reply layout of a query of at least 12 bytes answered with `octets`. */
  ghost predicate ReplyLayout(data: seq<byte>, octets: seq<byte>, p: seq<byte>)
    requires |data| >= 12
  {
    var n := |data|;
    && |p| == n + 12 + |octets|
    && p[0..2] == data[0..2]
    && p[2..4] == [0x81, 0x80]
    && p[4..6] == data[4..6]
    && p[6..8] == data[4..6]
    && p[8..12] == [0, 0, 0, 0]
    && p[12..n] == data[12..]
    && p[n..n + 2] == [0xC0, 0x0C]
    && p[n + 2..n + 12] == [0x00, 0x01, 0x00, 0x01, 0x00, 0x00, 0x00, 0x3C, 0x00, 0x04]
    && p[n + 12..] == octets
  }

  lemma ReplyLayoutOf(data: seq<byte>, octets: seq<byte>, header: seq<byte>, p: seq<byte>)
    requires |data| >= 12
    requires header == data[..2] + [0x81, 0x80] + data[4..6] + data[4..6] + [0, 0, 0, 0]
    requires p == header + data[12..] + [0xC0, 0x0C]
                  + [0x00, 0x01, 0x00, 0x01, 0x00, 0x00, 0x00, 0x3C, 0x00, 0x04] + octets
    ensures ReplyLayout(data, octets, p)
  {
    var n := |data|;
    assert |header| == 12;
    assert p[..12] == header;
    assert header[0..2] == data[0..2] && header[2..4] == [0x81, 0x80];
    assert header[4..6] == data[4..6] && header[6..8] == data[4..6] && header[8..12] == [0, 0, 0, 0];
    assert p[0..2] == header[0..2] && p[2..4] == header[2..4] && p[4..6] == header[4..6];
    assert p[6..8] == header[6..8] && p[8..12] == header[8..12];
  }

  /** `build_reply(ip)`: for a query with an empty domain the empty string;
      otherwise the header with id, flags `81 80` and counts, the question
      verbatim, a pointer `C0 0C` to offset 12, TYPE A, CLASS IN, TTL 60,
      RDLENGTH 4 and the bytes of `ip`. `None` is the `ValueError` raised
      when a component of `ip` is not a number in 0..255. */
  method BuildReply(q: DnsQuery, ip: string) returns (packet: Option<seq<byte>>)
    requires q.domain != "" ==> |q.data| >= 12
    ensures q.domain == "" ==> packet == Some([])
    ensures q.domain != "" ==> (packet.Some? <==> IpOctets(ip).Some?)
    ensures q.domain != "" && packet.Some? ==>
              ReplyLayout(q.data, IpOctets(ip).value, packet.value)
  {
    var data := q.data;
    var n := |data|;
    var acc: seq<byte> := [];
    if q.domain != "" {
      acc := acc + data[..Min(2, n)] + [0x81, 0x80];
      acc := acc + data[Min(4, n)..Min(6, n)] + data[Min(4, n)..Min(6, n)] + [0, 0, 0, 0];
      ghost var header := acc;
      acc := acc + data[Min(12, n)..];
      acc := acc + [0xC0, 0x0C];
      acc := acc + [0x00, 0x01, 0x00, 0x01, 0x00, 0x00, 0x00, 0x3C, 0x00, 0x04];
      var octets := IpOctets(ip);
      if octets.None? {
        return None;
      }
      acc := acc + octets.value;
      ReplyLayoutOf(data, octets.value, header, acc);
    }
    return Some(acc);
  }

  /** An address of four dot-separated components that each convert to a
      byte, however they are spelled, gives a reply exactly 16 bytes longer
      than the query, ending in those four bytes. */
  method BuildReplyDottedQuad(q: DnsQuery, ip: string) returns (packet: Option<seq<byte>>)
    requires q.domain != "" && |q.data| >= 12
    requires Count(ip, '.') == 3 && forall i :: 0 <= i < 4 ==> Octet(Split(ip, '.')[i]).Some?
    ensures packet.Some? && |packet.value| == |q.data| + 16
    ensures |IpOctets(ip).value| == 4
    ensures packet.value[|q.data| + 12..] == IpOctets(ip).value
    ensures forall i :: 0 <= i < 4 ==> packet.value[|q.data| + 12 + i] == Octet(Split(ip, '.')[i]).value
  {
    packet := BuildReply(q, ip);
  }
}
