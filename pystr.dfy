/** The pieces of Python 2 `str` behaviour the server relies on:
    `s.split(c)` for a one-character separator, `int(s)` in base 10,
    and the `chr(int(x))` conversion of a dotted IPv4 string to bytes. */
module PyStr {
  import opened Wrappers

  /** A Python 2 `str` is a string of bytes. */
  newtype byte = x: int | 0 <= x < 256

  /** The text whose characters have the codes of `bs`, one per byte. */
  function Chars(bs: seq<byte>): (s: string)
    ensures |s| == |bs|
    ensures forall i :: 0 <= i < |bs| ==> s[i] as int == bs[i] as int
  {
    seq(|bs|, i requires 0 <= i < |bs| => bs[i] as int as char)
  }

  /** Number of occurrences of `c` in `s`. */
  function Count(s: string, c: char): nat
  {
    if s == [] then 0 else (if s[0] == c then 1 else 0) + Count(s[1..], c)
  }

  /** `s.split(sep)`: the maximal pieces between separators, always at least one. */
  function Split(s: string, sep: char): (parts: seq<string>)
    ensures |parts| == Count(s, sep) + 1
    ensures forall i :: 0 <= i < |parts| ==> sep !in parts[i]
    decreases |s|
  {
    if s == [] then [[]]
    else
      var rest := Split(s[1..], sep);
      if s[0] == sep then [[]] + rest
      else [[s[0]] + rest[0]] + rest[1..]
  }

  /** `sep.join(parts)`, the inverse of `Split`. */
  function Join(parts: seq<string>, sep: char): string
  {
    if parts == [] then []
    else if |parts| == 1 then parts[0]
    else parts[0] + [sep] + Join(parts[1..], sep)
  }

  lemma {:induction false} JoinSplit(s: string, sep: char)
    ensures Join(Split(s, sep), sep) == s
    decreases |s|
  {
    if s != [] {
      var rest := Split(s[1..], sep);
      JoinSplit(s[1..], sep);
      assert s == [s[0]] + s[1..];
      var parts := Split(s, sep);
      if s[0] == sep {
        assert parts == [[]] + rest && parts[1..] == rest;
        assert Join(parts, sep) == [] + [sep] + Join(rest, sep);
      } else {
        assert parts == [[s[0]] + rest[0]] + rest[1..];
        if |rest| == 1 {
          assert Join(parts, sep) == [s[0]] + rest[0];
        } else {
          assert parts[1..] == rest[1..];
          assert Join(rest, sep) == rest[0] + [sep] + Join(rest[1..], sep);
          assert Join(parts, sep) == [s[0]] + rest[0] + [sep] + Join(rest[1..], sep);
        }
      }
    }
  }

  /** A string without the separator is a single piece. */
  lemma {:induction false} SplitNoSep(s: string, sep: char)
    requires sep !in s
    ensures Split(s, sep) == [s]
    decreases |s|
  {
    if s != [] {
      assert sep !in s[1..] by {
        forall k | 0 <= k < |s[1..]| ensures s[1..][k] != sep { assert s[1..][k] == s[k + 1]; }
      }
      SplitNoSep(s[1..], sep);
      assert [s[0]] + s[1..] == s;
    }
  }

  /** Splitting at the first separator. */
  lemma {:induction false} SplitFirst(x: string, y: string, sep: char)
    requires sep !in x
    ensures Split(x + [sep] + y, sep) == [x] + Split(y, sep)
    decreases |x|
  {
    var s := x + [sep] + y;
    if x == [] {
      assert s == [sep] + y;
      assert s[1..] == y;
    } else {
      assert sep !in x[1..] by {
        forall k | 0 <= k < |x[1..]| ensures x[1..][k] != sep { assert x[1..][k] == x[k + 1]; }
      }
      SplitFirst(x[1..], y, sep);
      assert s[1..] == x[1..] + [sep] + y;
      assert s[0] == x[0];
      assert [x[0]] + x[1..] == x;
    }
  }

  /** A string with exactly one separator splits into the text before and after it. */
  lemma SplitOne(s: string, sep: char, i: nat)
    requires i < |s| && s[i] == sep && sep !in s[..i] && sep !in s[i + 1..]
    ensures Split(s, sep) == [s[..i], s[i + 1..]]
  {
    assert s == s[..i] + [sep] + s[i + 1..];
    SplitFirst(s[..i], s[i + 1..], sep);
    SplitNoSep(s[i + 1..], sep);
  }

  // ---------------------------------------------------------------------
  // int(x) on a Python 2 str, base 10

  /** The characters C's `isspace` accepts: space, and tab through carriage return. */
  predicate IsSpace(c: char)
  {
    c == ' ' || 9 <= c as int <= 13
  }

  predicate IsDigit(c: char)
  {
    '0' <= c <= '9'
  }

  predicate AllDigits(s: string)
  {
    forall i :: 0 <= i < |s| ==> IsDigit(s[i])
  }

  /** `s` without its leading white space. */
  function TrimLeft(s: string): string
  {
    if s != [] && IsSpace(s[0]) then TrimLeft(s[1..]) else s
  }

  /** `s` without its trailing white space. */
  function TrimRight(s: string): string
  {
    if s != [] && IsSpace(s[|s| - 1]) then TrimRight(s[..|s| - 1]) else s
  }

  /** The value of a string of decimal digits, most significant first. */
  function DigitsValue(s: string): nat
    requires AllDigits(s)
  {
    if s == [] then 0
    else DigitsValue(s[..|s| - 1]) * 10 + (s[|s| - 1] as int - '0' as int)
  }

  /** The number spelled by text without surrounding white space: an
      optional sign, then one or more decimal digits. */
  function SignedValue(t: string): Option<int>
  {
    if t == [] then None
    else
      var negative := t[0] == '-';
      var digits := if t[0] == '-' || t[0] == '+' then t[1..] else t;
      if digits != [] && AllDigits(digits) then
        Some(if negative then -(DigitsValue(digits) as int) else DigitsValue(digits))
      else None
  }

  /** Python 2's `int(x)`: white space around the number is ignored; anything
      else raises `ValueError` (None). */
  function PyInt(x: string): (r: Option<int>)
    ensures x != [] && AllDigits(x) ==> r == Some(DigitsValue(x) as int)
  {
    if x != [] && AllDigits(x) then
      TrimDigits(x);
      SignedValue(TrimRight(TrimLeft(x)))
    else
      SignedValue(TrimRight(TrimLeft(x)))
  }

  /** `chr(int(x))`: the byte whose value `x` spells, if it is in 0..255. */
  function Octet(x: string): (r: Option<byte>)
    ensures r.Some? <==> PyInt(x).Some? && 0 <= PyInt(x).value < 256
    ensures r.Some? ==> r.value as int == PyInt(x).value
  {
    match PyInt(x)
    case None => None
    case Some(n) => if 0 <= n < 256 then Some(n as byte) else None
  }

  /** `map(lambda x: chr(int(x)), parts)`, failing when any part fails. */
  function Octets(parts: seq<string>): (r: Option<seq<byte>>)
    ensures r.Some? <==> forall i :: 0 <= i < |parts| ==> Octet(parts[i]).Some?
    ensures r.Some? ==> |r.value| == |parts| &&
                        forall i :: 0 <= i < |parts| ==> r.value[i] == Octet(parts[i]).value
  {
    if parts == [] then Some([])
    else
      match Octet(parts[0])
      case None => None
      case Some(b) =>
        match Octets(parts[1..])
        case None => None
        case Some(bs) => Some([b] + bs)
  }

  /** The bytes `build_reply` appends for the address text `ip`: one byte per
      dot-separated component. */
  function IpOctets(ip: string): (r: Option<seq<byte>>)
    ensures r.Some? ==> |r.value| == Count(ip, '.') + 1
  {
    Octets(Split(ip, '.'))
  }

  // ---------------------------------------------------------------------
  // Decimal rendering, the inverse of int() on canonical strings

  function DigitChar(d: nat): char
    requires d < 10
  {
    ('0' as int + d) as char
  }

  /** The shortest decimal spelling of `n`. */
  function Decimal(n: nat): (s: string)
    ensures s != [] && AllDigits(s)
  {
    if n < 10 then [DigitChar(n)] else Decimal(n / 10) + [DigitChar(n % 10)]
  }

  lemma {:induction false} DecimalValue(n: nat)
    ensures DigitsValue(Decimal(n)) == n
  {
    if n >= 10 {
      DecimalValue(n / 10);
      var s := Decimal(n);
      assert s[..|s| - 1] == Decimal(n / 10);
    }
  }

  lemma SignedValueDecimal(n: nat)
    ensures SignedValue(Decimal(n)) == Some(n)
  {
    var s := Decimal(n);
    assert IsDigit(s[0]);
    DecimalValue(n);
  }

  /** Text that starts and ends with a digit is left alone by the trimming. */
  lemma TrimDigits(s: string)
    requires s != [] && IsDigit(s[0]) && IsDigit(s[|s| - 1])
    ensures TrimRight(TrimLeft(s)) == s
  {
    assert TrimLeft(s) == s;
  }

  lemma PyIntDecimal(n: nat)
    ensures PyInt(Decimal(n)) == Some(n)
  {
    var s := Decimal(n);
    assert IsDigit(s[0]) && IsDigit(s[|s| - 1]);
    TrimDigits(s);
    SignedValueDecimal(n);
  }

  /** `chr(int(x))` of the decimal spelling of a byte is that byte. */
  lemma OctetDecimal(b: byte)
    ensures Octet(Decimal(b as nat)) == Some(b)
  {
    PyIntDecimal(b as nat);
  }

  /** `sep.join` of pieces that do not contain `sep` splits back into those pieces. */
  lemma {:induction false} SplitJoin(parts: seq<string>, sep: char)
    requires |parts| >= 1
    requires forall i :: 0 <= i < |parts| ==> sep !in parts[i]
    ensures Split(Join(parts, sep), sep) == parts
  {
    if |parts| == 1 {
      SplitNoSep(parts[0], sep);
    } else {
      SplitJoin(parts[1..], sep);
      SplitFirst(parts[0], Join(parts[1..], sep), sep);
      assert [parts[0]] + parts[1..] == parts;
    }
  }

  /** The decimal spelling of each octet. */
  function DecimalParts(os: seq<byte>): (parts: seq<string>)
    ensures |parts| == |os|
    ensures forall i :: 0 <= i < |os| ==> parts[i] == Decimal(os[i] as nat)
  {
    if os == [] then [] else [Decimal(os[0] as nat)] + DecimalParts(os[1..])
  }

  /** The dotted text of a sequence of octets, `"1.2.3.4"` for `[1, 2, 3, 4]`. */
  function Dotted(os: seq<byte>): string
  {
    Join(DecimalParts(os), '.')
  }

  lemma {:induction false} OctetsDecimalParts(os: seq<byte>)
    ensures Octets(DecimalParts(os)) == Some(os)
  {
    if os != [] {
      var parts := DecimalParts(os);
      assert parts == [Decimal(os[0] as nat)] + DecimalParts(os[1..]);
      OctetDecimal(os[0]);
      OctetsDecimalParts(os[1..]);
      assert [os[0]] + os[1..] == os;
    }
  }

  /** The dotted text of any non-empty sequence of octets converts back to
      those octets, in order; a dotted quad gives four bytes. */
  lemma IpOctetsDotted(os: seq<byte>)
    requires |os| >= 1
    ensures IpOctets(Dotted(os)) == Some(os)
  {
    var parts := DecimalParts(os);
    forall i | 0 <= i < |parts| ensures '.' !in parts[i] {
      assert AllDigits(parts[i]);
    }
    SplitJoin(parts, '.');
    OctetsDecimalParts(os);
  }

  /** Surrounding white space, such as the carriage return a host file written
      with CRLF line ends leaves on the address, does not change the value. */
  lemma PyIntCarriageReturn(n: nat)
    ensures PyInt(Decimal(n) + "\r") == Some(n)
  {
    var s := Decimal(n);
    var t := s + "\r";
    assert IsDigit(s[0]) && IsDigit(s[|s| - 1]);
    assert TrimLeft(t) == t by {
      assert t[0] == s[0];
    }
    assert TrimRight(t) == TrimRight(s) by {
      assert t[|t| - 1] == '\r' && t[..|t| - 1] == s;
    }
    TrimDigits(s);
    SignedValueDecimal(n);
  }
}
