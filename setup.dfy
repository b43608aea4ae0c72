/** `ClientApplication._get_user_input`: the three answers the user types
    before the session starts. Each answer is a line of text given as a
    parameter; the prompts and messages the program prints are not part of
    the model. */
module Setup {
  import opened Wrappers
  import opened PyText
  import opened UrlParser
  import opened Transport

  const DefaultUrl: string := "example.com"
  const DefaultPort: int := 8080

  /** What the application hands to the client factory. */
  datatype Settings = Settings(host: string, port: int, protocol: Protocol)

  /** Why setup does not produce settings: `extract_host_port` raised, or
      the input ended before a valid protocol was typed. */
  datatype SetupError = BadAddress(cause: ParseError) | NoProtocol

  /** The URL answer: stripped of whitespace, or the default when nothing
      but whitespace was typed. */
  function ResolveUrl(line: string): (url: string)
    ensures AllSpace(line) ==> url == DefaultUrl
    ensures !AllSpace(line) ==> url == Strip(line) && url != []
  {
    var u := Strip(line);
    if u == [] then DefaultUrl else u
  }

  /** The port answer: the integer `int()` reads from the stripped answer,
      or the default when the answer is blank or `int()` rejects it. The
      answer is stripped before `int()` sees it, so an information separator
      at either end is dropped rather than rejected. */
  function ResolvePort(line: string): (port: int)
    ensures PyInt(Strip(line)).Some? ==> port == PyInt(Strip(line)).value
    ensures PyInt(Strip(line)).None? ==> port == DefaultPort
    ensures NoInfoSeparator(line) && PyInt(line).Some? ==> port == PyInt(line).value
    ensures NoInfoSeparator(line) && PyInt(line).None? ==> port == DefaultPort
  {
    var t := Strip(line);
    PyIntOfStripped(line);
    if t == [] then
      DefaultPort
    else match PyInt(t)
      case Some(p) => p
      case None => DefaultPort
  }

  /** The protocol answer: stripped and upper-cased, blank meaning TCP; any
      other text is not a member of the `Protocol` enumeration. */
  function ParseProtocol(line: string): (r: Option<Protocol>)
    ensures AllSpace(line) ==> r == Some(TCP)
  {
    var t := Upper(Strip(line));
    var name := if t == [] then "TCP" else t;
    if name == "TCP" then Some(TCP)
    else if name == "UDP" then Some(UDP)
    else None
  }

  /** The protocol answer is read without regard to case or surrounding
      whitespace, and a blank answer chooses TCP. */
  lemma ProtocolAnswer(line: string)
    ensures ParseProtocol(line) == Some(TCP) <==> AllSpace(line) || SameIgnoringCase(Strip(line), "TCP")
    ensures ParseProtocol(line) == Some(UDP) <==> SameIgnoringCase(Strip(line), "UDP")
    ensures ParseProtocol(line) == None <==>
              !AllSpace(line) && !SameIgnoringCase(Strip(line), "TCP") && !SameIgnoringCase(Strip(line), "UDP")
  {
    var t := Strip(line);
    ProtocolNames();
    UpperMatchesIgnoringCase(t, "TCP");
    UpperMatchesIgnoringCase(t, "UDP");
    assert Upper(t) == [] <==> t == [];
  }

  /** The two names of the enumeration: distinct, and in upper case. */
  lemma ProtocolNames()
    ensures "TCP" != "UDP"
    ensures forall i :: 0 <= i < |"TCP"| ==> 'A' <= "TCP"[i] <= 'Z'
    ensures forall i :: 0 <= i < |"UDP"| ==> 'A' <= "UDP"[i] <= 'Z'
  {
    assert "TCP"[0] != "UDP"[0];
  }

  /** `used` lines of `lines` were read by the protocol loop, which ended
      with `p`: every line before the last one read was rejected, and the
      last one gave `p`; `None` means every line was rejected. */
  predicate Chosen(lines: seq<string>, p: Option<Protocol>, used: nat)
  {
    used <= |lines| &&
    (forall j :: 0 <= j < used - 1 ==> ParseProtocol(lines[j]).None?) &&
    (p.Some? ==> 0 < used && ParseProtocol(lines[used - 1]) == p) &&
    (p.None? ==> used == |lines| && forall j :: 0 <= j < |lines| ==> ParseProtocol(lines[j]).None?)
  }

  /** The protocol loop: ask again until a valid protocol is typed. `used`
      is how many lines were read; running out of lines ends the loop as
      `input()` does at end of file. */
  method SelectProtocol(lines: seq<string>) returns (p: Option<Protocol>, used: nat)
    ensures Chosen(lines, p, used)
  {
    var i := 0;
    while i < |lines|
      invariant 0 <= i <= |lines|
      invariant forall j :: 0 <= j < i ==> ParseProtocol(lines[j]).None?
    {
      var choice := ParseProtocol(lines[i]);
      if choice.Some? {
        ChosenAt(lines, i);
        return choice, i + 1;
      }
      RejectedPrefixGrows(lines, i);
      i := i + 1;
    }
    ChosenNone(lines);
    return None, i;
  }

  /** The first valid answer, at `i`, ends the loop. */
  lemma ChosenAt(lines: seq<string>, i: nat)
    requires i < |lines| && ParseProtocol(lines[i]).Some?
    requires forall j :: 0 <= j < i ==> ParseProtocol(lines[j]).None?
    ensures Chosen(lines, ParseProtocol(lines[i]), i + 1)
  {
  }

  /** A rejected answer at `i` extends the run of rejected answers. */
  lemma RejectedPrefixGrows(lines: seq<string>, i: nat)
    requires i < |lines| && ParseProtocol(lines[i]).None?
    requires forall j :: 0 <= j < i ==> ParseProtocol(lines[j]).None?
    ensures forall j :: 0 <= j < i + 1 ==> ParseProtocol(lines[j]).None?
  {
  }

  /** No valid answer: the loop reads every line and ends without one. */
  lemma ChosenNone(lines: seq<string>)
    requires forall j :: 0 <= j < |lines| ==> ParseProtocol(lines[j]).None?
    ensures Chosen(lines, None, |lines|)
  {
  }

  /** The host and port setup settles on before asking for the protocol. */
  function Address(urlLine: string, portLine: string): Result<(string, int), ParseError>
  {
    ExtractHostPort(ResolveUrl(urlLine), ResolvePort(portLine))
  }

  /** `_get_user_input`: the URL, then the port, then the host and port
      `extract_host_port` finds, then the protocol loop. An address that
      fails to parse ends setup before the protocol is asked; `asked` is
      how many protocol lines were read. */
  method GetUserInput(urlLine: string, portLine: string, protocolLines: seq<string>)
    returns (r: Result<Settings, SetupError>, asked: nat)
    ensures Address(urlLine, portLine).Failure? ==>
              r == Failure(BadAddress(Address(urlLine, portLine).error)) && asked == 0
    ensures Address(urlLine, portLine).Success? ==>
              Chosen(protocolLines, if r.Success? then Some(r.value.protocol) else None, asked) &&
              (r.Failure? ==> r.error == NoProtocol) &&
              (r.Success? ==> (r.value.host, r.value.port) == Address(urlLine, portLine).value)
  {
    var url := ResolveUrl(urlLine);
    var port := ResolvePort(portLine);
    var address := ExtractHostPort(url, port);
    if address.Failure? {
      return Failure(BadAddress(address.error)), 0;
    }
    var protocol, used := SelectProtocol(protocolLines);
    if protocol.None? {
      return Failure(NoProtocol), used;
    }
    r := Success(Settings(address.value.0, address.value.1, protocol.value));
    asked := used;
  }

  /** A port typed as an integer is read back as that integer. */
  lemma PortAnswerRoundTrip(n: int)
    ensures ResolvePort(IntString(n)) == n
  {
    PyIntOfIntString(n);
  }

  /** Blank answers everywhere give `example.com`, port 8080, TCP. */
  lemma DefaultSetup(urlLine: string, portLine: string, protocolLine: string)
    requires AllSpace(urlLine) && AllSpace(portLine) && AllSpace(protocolLine)
    ensures ExtractHostPort(ResolveUrl(urlLine), ResolvePort(portLine)) == Success((DefaultUrl, DefaultPort))
    ensures ParseProtocol(protocolLine) == Some(TCP)
  {
    assert Strip(portLine) == [];
    assert IntLiteralValue([]) == None;
    BareHostTakesDefaultPort(DefaultUrl, "", DefaultPort);
    assert DefaultUrl + "" == DefaultUrl;
    ProtocolAnswer(protocolLine);
  }

  /** A port in the URL wins over the port answer. */
  lemma UrlPortWins(host: string, p: int, portLine: string)
    requires IsPlainHost(host) && (host == [] || !IsSpace(host[0]))
    ensures ExtractHostPort(ResolveUrl(host + [':'] + IntString(p)), ResolvePort(portLine)) == Success((host, p))
  {
    var u := host + [':'] + IntString(p);
    IntStringChars(p);
    assert u[0] == (if host == [] then ':' else host[0]);
    assert u[|u| - 1] == IntString(p)[|IntString(p)| - 1];
    StripNoEdgeSpace(u);
    HostPortOverridesDefault(host, p, "", ResolvePort(portLine));
    assert u + "" == u;
  }
}
