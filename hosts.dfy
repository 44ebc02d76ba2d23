/** `read_hosts` of pytinydns: the host file, one `domain:ip` record per line,
    loaded into the domain-to-address map the server answers from. Opening
    the file is not modelled; the loader is given the lines the file
    iterator yields, each with its newline. */
module Hosts {
  import opened Wrappers
  import opened PyStr

  /** Why loading stops the process: a line that is neither a comment nor a
      `domain:ip` record (`sys.exit(1)`), or an empty line, whose `line[0]`
      raises `IndexError` (a file iterator never yields one). */
  datatype ConfigError = InvalidFormat | EmptyLine

  /** `s[0:-1]`: `s` without its last character (the newline, usually). */
  function DropLast(s: string): string
  {
    if s == [] then [] else s[..|s| - 1]
  }

  predicate IsComment(line: string)
  {
    line != [] && line[0] == '#'
  }

  /** A line that adds a record: not a comment and exactly one colon. */
  predicate IsRecord(line: string)
  {
    !IsComment(line) && |Split(line, ':')| == 2
  }

  /** A line the loader accepts. */
  predicate Acceptable(line: string)
  {
    IsComment(line) || IsRecord(line)
  }

  function Key(line: string): string
    requires IsRecord(line)
  {
    Split(line, ':')[0]
  }

  function Value(line: string): string
    requires IsRecord(line)
  {
    DropLast(Split(line, ':')[1])
  }

  /** The error an unacceptable line stops the load with. */
  function ErrorOf(line: string): ConfigError
  {
    if line == [] then EmptyLine else InvalidFormat
  }

  /** One iteration of the loop over the file: comments change nothing,
      a record sets its key, anything else stops the load. */
  function AddLine(m: map<string, string>, line: string): (r: Result<map<string, string>, ConfigError>)
    ensures IsComment(line) ==> r == Ok(m)
    ensures IsRecord(line) ==> r == Ok(m[Key(line) := Value(line)])
    ensures !Acceptable(line) ==> r == Err(ErrorOf(line))
  {
    var sline := Split(line, ':');
    if |sline| != 2 && line == [] then Err(EmptyLine)
    else if |sline| != 2 && line[0] != '#' then Err(InvalidFormat)
    else if line[0] != '#' then Ok(m[sline[0] := DropLast(sline[1])])
    else Ok(m)
  }

  /** The map after loading `lines` in order from an empty one, or the
      error of the first line that stops the load. */
  function LoadHosts(lines: seq<string>): (r: Result<map<string, string>, ConfigError>)
    ensures r.Err? ==> exists i :: 0 <= i < |lines| && !Acceptable(lines[i]) && r.error == ErrorOf(lines[i])
  {
    if lines == [] then Ok(map[])
    else
      var init := lines[..|lines| - 1];
      assert forall i :: 0 <= i < |init| ==> init[i] == lines[i];
      match LoadHosts(init)
      case Err(e) => Err(e)
      case Ok(m) => AddLine(m, lines[|lines| - 1])
  }

  /** `read_hosts`: `dns_dict` starts empty and each line updates it in turn.
      (The `-l` option of `main` assigns the result of `read_hosts`, which is
      `None`, to `dns_dict`; the `host_file` setting of a config file uses the
      map `read_hosts` leaves behind, which is the map modelled here.) */
  method ReadHosts(lines: seq<string>) returns (r: Result<map<string, string>, ConfigError>)
    ensures r == LoadHosts(lines)
  {
    var dnsDict: map<string, string> := map[];
    var i := 0;
    while i < |lines|
      invariant 0 <= i <= |lines|
      invariant LoadHosts(lines[..i]) == Ok(dnsDict)
    {
      var line := lines[i];
      var sline := Split(line, ':');
      assert lines[..i + 1][..i] == lines[..i];
      if |sline| != 2 && line == [] {
        ErrorSticks(lines, i + 1);
        return Err(EmptyLine);
      } else if |sline| != 2 && line[0] != '#' {
        ErrorSticks(lines, i + 1);
        return Err(InvalidFormat);
      } else if line[0] != '#' {
        dnsDict := dnsDict[sline[0] := DropLast(sline[1])];
      }
      i := i + 1;
    }
    assert lines[..i] == lines;
    return Ok(dnsDict);
  }

  /** Once a prefix of the file has stopped the load, the whole file stops it
      with the same error. */
  lemma {:induction false} ErrorSticks(lines: seq<string>, k: nat)
    requires k <= |lines| && LoadHosts(lines[..k]).Err?
    ensures LoadHosts(lines) == LoadHosts(lines[..k])
    decreases |lines|
  {
    if k < |lines| {
      var init := lines[..|lines| - 1];
      assert init[..k] == lines[..k];
      ErrorSticks(init, k);
    } else {
      assert lines[..k] == lines;
    }
  }

  /** The load succeeds exactly when every line is a comment or a record. */
  lemma {:induction false} LoadHostsOk(lines: seq<string>)
    ensures LoadHosts(lines).Ok? <==> forall i :: 0 <= i < |lines| ==> Acceptable(lines[i])
    decreases |lines|
  {
    if lines != [] {
      var init := lines[..|lines| - 1];
      LoadHostsOk(init);
      assert forall i :: 0 <= i < |init| ==> init[i] == lines[i];
    }
  }

  /** A failed load reports the error of its first unacceptable line. */
  lemma {:induction false} LoadHostsFirstError(lines: seq<string>) returns (i: nat)
    requires LoadHosts(lines).Err?
    ensures i < |lines| && !Acceptable(lines[i])
    ensures forall j :: 0 <= j < i ==> Acceptable(lines[j])
    ensures LoadHosts(lines).error == ErrorOf(lines[i])
    decreases |lines|
  {
    var init := lines[..|lines| - 1];
    if LoadHosts(init).Err? {
      i := LoadHostsFirstError(init);
    } else {
      i := |lines| - 1;
      LoadHostsOk(init);
    }
  }

  /** Line `i` is a record and no later line is a record for the same key. */
  predicate LastRecordFor(lines: seq<string>, i: nat)
    requires i < |lines|
  {
    IsRecord(lines[i]) &&
    forall j :: i < j < |lines| && IsRecord(lines[j]) ==> Key(lines[j]) != Key(lines[i])
  }

  /** A loaded map holds exactly the keys of the record lines, each with the
      value of the last record line for that key: later lines overwrite
      earlier ones and comments add nothing. */
  lemma {:induction false} LoadHostsContents(lines: seq<string>)
    requires LoadHosts(lines).Ok?
    ensures forall k :: k in LoadHosts(lines).value <==>
              exists i :: 0 <= i < |lines| && IsRecord(lines[i]) && Key(lines[i]) == k
    ensures forall i :: 0 <= i < |lines| && LastRecordFor(lines, i) ==>
              LoadHosts(lines).value[Key(lines[i])] == Value(lines[i])
    decreases |lines|
  {
    if lines != [] {
      var init := lines[..|lines| - 1];
      var last := lines[|lines| - 1];
      LoadHostsContents(init);
      assert forall i :: 0 <= i < |init| ==> init[i] == lines[i];
    }
  }

  /** A line without a colon that is not a comment stops the load. */
  lemma BadLineIsFatal(lines: seq<string>, i: nat)
    requires i < |lines| && lines[i] != [] && lines[i][0] != '#' && ':' !in lines[i]
    ensures LoadHosts(lines).Err?
  {
    SplitNoSep(lines[i], ':');
    LoadHostsOk(lines);
  }

  /** A record line: the key is the text before the colon and the value the
      text after it without its last character. That character is the
      newline, except on a final line that has none, which loses the last
      character of its address. */
  lemma RecordLine(domain: string, ip: string, last: char)
    requires ':' !in domain && ':' !in ip && last != ':' && (domain != [] ==> domain[0] != '#')
    ensures LoadHosts([domain + ":" + ip + [last]]) == Ok(map[domain := ip])
  {
    var line := domain + ":" + ip + [last];
    assert ':' !in ip + [last];
    SplitOne(line, ':', |domain|);
    assert line[..|domain|] == domain && line[|domain| + 1..] == ip + [last];
    var file := [line];
    assert file[..0] == [];
  }
}
