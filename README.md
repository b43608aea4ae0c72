# Unified TCP/UDP socket client, modelled in Dafny

`TCP_UDP_client.py` is an interactive client. It asks for a server address,
a port and a protocol. It then reads lines from the user and sends each one
to the server, over TCP or UDP, and reports the answer. This project models
its core and proves properties of the model:

- `URLParser.extract_host_port`. The `^[a-zA-Z]+://` check, the `http://`
  default, the netloc that `urllib.parse.urlparse` finds, the split on `:`
  and `int()` on the port text. Module `UrlParser`, on top of the Python
  string built-ins in module `PyText`.
- The socket clients. `SocketClient` and its subclasses `TCPClient` and
  `UDPClient` become one class, `Clients.SocketClient`, whose `protocol`
  tells the two kinds apart. The `socket` attribute is a field that
  `connect` updates in place. Every socket call is recorded in a ghost
  trace of events (open, connect, send, receive, close).
- The network is a parameter. Each call takes a `Fate`, which says which
  socket call raises `socket.error`, if any, and what the server answers.
  Sockets are numbered in the order they are created.
- Module `Transport` holds the specification functions:
  - `TcpExchange` and `UdpExchange` describe one message;
  - `Session` describes the message loop.

  The class's methods are proved against these functions. The loop's
  promises are proved about `Session`: where it stops, what it sends, which
  sockets it holds.
- `ClientFactory.create_client`, as `Clients.CreateClient`.
- The setup answers of `ClientApplication._get_user_input`, in module
  `Setup`: the URL and port defaults, and the protocol prompt that repeats
  until the answer is valid.

The model follows the code where the file's own header comment says more:

- The header says the port lies in 1..65535. The code never checks a
  range: any integer `int()` accepts is returned, negative ones included.
- The header says a port in the URL wins over the separate answer. That
  holds (`UrlParser.HostPortOverridesDefault`). But a netloc with more than
  one `:` raises, because `host.split(':')` must unpack into exactly two
  names (`UrlParser.ManyColonsFail`).
- An empty host passes: `http://:90` gives `("", 90)`.
- The exit command is sent to the server before the loop stops. A TCP
  client whose socket creation raises closes its previous, already closed
  socket again in the `finally` block.

## Model

| member | source | states |
|---|---|---|
| PyText.Strip | TCP_UDP_client.py:332 | `str.strip()` leaves no whitespace at either end, and the result is empty exactly when the text is all whitespace |
| PyText.StripIsMiddle | TCP_UDP_client.py:332 | the stripped text is a run of the text with only whitespace before and after it: exactly the edge whitespace is removed |
| PyText.StripIdempotent | TCP_UDP_client.py:337-342 | stripping twice is stripping once, so `int()` on an already stripped answer sees the same text |
| PyText.UpperMatchesIgnoringCase | TCP_UDP_client.py:352 | `upper()` equals an upper-case name exactly when the text spells it in any ASCII case |
| PyText.LowerMatchesIgnoringCase | TCP_UDP_client.py:188 | `lower()` equals a lower-case word exactly when the text spells it in any ASCII case |
| PyText.Split | TCP_UDP_client.py:128 | `split(':')` gives one piece more than there are colons; no piece holds a colon; joining the pieces gives the text back |
| PyText.SplitAtSoleSeparator | TCP_UDP_client.py:128 | text with exactly one separator splits into the text before it and the text after it |
| PyText.PyIntOfIntString | TCP_UDP_client.py:129 | `int(str(n)) == n` for every integer, negative ones included |
| PyText.PyInt | TCP_UDP_client.py:129 | `int()` converts only text that holds no FS, GS, RS or US character and is not all whitespace |
| PyText.PyIntChars | TCP_UDP_client.py:129 | `int()` raises on any text holding a character other than digits, `_`, a sign or whitespace, or holding an FS, GS, RS or US character |
| PyText.PyIntOfStripped | TCP_UDP_client.py:337-342 | for text without FS, GS, RS or US, `int()` gives the same result on the stripped text; blank text is rejected |
| UrlParser.HasSchemePrefix | TCP_UDP_client.py:121 | the prefix test holds exactly when `^[a-zA-Z]+://` matches at some letter run, and then the match covers the whole letter run |
| UrlParser.WithDefaultScheme | TCP_UDP_client.py:121-122 | the url afterwards always has a scheme prefix, and a url that had one is left unchanged |
| UrlParser.BareAddressGetsHttp | TCP_UDP_client.py:121-122 | an address without a scheme parses exactly as with `http://` in front |
| UrlParser.Netloc | TCP_UDP_client.py:124-125 | the netloc `urlparse` returns holds no `/`, `?` or `#` |
| UrlParser.SchemeUrlAuthority | TCP_UDP_client.py:124-125 | the netloc of `scheme://rest` is the text of `rest` up to the first `/`, `?` or `#`, with tabs and line breaks deleted |
| UrlParser.SchemeIsIgnored | TCP_UDP_client.py:121-125 | any letter scheme gives the same host and port as `http` |
| UrlParser.SplitHostPort | TCP_UDP_client.py:127-131 | a netloc without a colon is returned with the default port; with a colon, success means the netloc is host, colon, port text and the port is `int()` of that text; a returned host never holds `:`, `/`, `?` or `#` |
| UrlParser.ExtractHostPort | TCP_UDP_client.py:109-133 | a returned host never holds `:`, `/`, `?` or `#`; a netloc without a colon gives itself and the default port; with a colon, a returned port is `int()` of the text after it |
| UrlParser.HostTextNetloc | TCP_UDP_client.py:127-130 | `host:text` gives the host and `int(text)`, or the ValueError for the text |
| UrlParser.BareHostTakesDefaultPort | TCP_UDP_client.py:109-133 | a bare host, with or without a path, gives that host and the default port |
| UrlParser.SchemeHostTakesDefaultPort | TCP_UDP_client.py:109-133 | `scheme://host`, with or without a path, gives that host and the default port |
| UrlParser.HostPortOverridesDefault | TCP_UDP_client.py:127-131 | `host:port` gives that port whatever the default |
| UrlParser.SchemeHostPortOverridesDefault | TCP_UDP_client.py:127-131 | `scheme://host:port` gives that port whatever the default |
| UrlParser.EmptyPortFails | TCP_UDP_client.py:128-129 | `scheme://host:` with nothing after the colon raises ValueError for the empty text |
| UrlParser.NonNumericPortFails | TCP_UDP_client.py:129 | a port text holding a character `int()` never accepts, or an FS, GS, RS or US character, raises ValueError for that text |
| UrlParser.InfoSeparatorPortExample | TCP_UDP_client.py:128-129 | `h:` followed by FS and `80` raises ValueError for the port text, since `int()` does not skip FS |
| UrlParser.ManyColonsFail | TCP_UDP_client.py:128 | a netloc with two or more colons raises the unpacking ValueError, with one piece per colon plus one |
| UrlParser.LocalhostExample | TCP_UDP_client.py:109-133 | `localhost` with default 8080 gives `("localhost", 8080)` |
| UrlParser.SchemeWithPortExample | TCP_UDP_client.py:109-133 | `tcp://example.com:9000` with default 8080 gives `("example.com", 9000)` |
| Transport.IsExitCommand | TCP_UDP_client.py:188 | a line is an exit command exactly when it is `exit` or `quit` in any ASCII case |
| Transport.TcpExchange | TCP_UDP_client.py:228-241 | a TCP message is answered exactly when no call raises; otherwise the failing stage is reported. A created socket is the next one and is closed last; when creation raises, only a close of the previous socket happens |
| Transport.UdpExchange | TCP_UDP_client.py:277-281 | a UDP message keeps the socket; only sends and receives on that socket happen; it fails exactly when the send or receive raises; without a socket the answer is empty |
| Transport.Exchange | TCP_UDP_client.py:186 | a failure names the stage whose call raised; an answer is the server's reply unless a UDP client has no socket; a UDP exchange keeps the socket |
| Transport.ExchangeFailsIffFaulty | TCP_UDP_client.py:186-194 | for a ready client, handling a line raises `socket.error` exactly when one of its calls raises, and the client stays ready |
| Transport.Session | TCP_UDP_client.py:180-194 | the loop handles at most all the lines; it handles all of them when input ends, and at least one when it stops |
| Transport.SessionStopsAtFirstStop | TCP_UDP_client.py:180-194 | the loop stops right after the first line that raises or is an exit command, with the matching ending, and handles every line when there is none |
| Transport.LinesAfterStopIgnored | TCP_UDP_client.py:188-194 | lines after the loop has stopped change nothing |
| Transport.ExchangeSends | TCP_UDP_client.py:211-214 | handling a line sends exactly that line once, unless socket creation or connection raised first |
| Transport.SessionSendsHandledLines | TCP_UDP_client.py:184-188 | the loop sends the handled lines in order, exit commands included; only a last line whose socket could not be created or connected is not sent |
| Transport.TcpSessionReleasesSockets | TCP_UDP_client.py:228-241 | a TCP session closes every socket it creates and never holds two at once |
| Transport.TcpSessionSendsFrom | TCP_UDP_client.py:205-209 | every TCP send goes on a socket created during the session |
| Transport.TcpNewSocketPerMessage | TCP_UDP_client.py:228-232 | each TCP message is sent on a new socket: socket numbers of sends strictly increase |
| Transport.UdpSessionKeepsSocket | TCP_UDP_client.py:277-281 | a UDP session keeps its one socket and only sends and receives on it |
| Clients.SocketClient.constructor | TCP_UDP_client.py:141-145 | a new client stores host and port and holds no socket |
| Clients.SocketClient.UdpConnect | TCP_UDP_client.py:251-258 | creating the datagram socket stores a new socket, or reports the failure and changes nothing |
| Clients.SocketClient.TcpConnect | TCP_UDP_client.py:205-209 | a new stream socket is stored and connected; when creation raises nothing changes; when connecting raises the socket is already stored |
| Clients.SocketClient.SendMessage | TCP_UDP_client.py:211-214 | sends on the socket when there is one, else does nothing |
| Clients.SocketClient.ReceiveMessage | TCP_UDP_client.py:216-221 | returns the server's answer from the socket, or the empty text without one |
| Clients.SocketClient.Close | TCP_UDP_client.py:223-226 | closes the socket when there is one |
| Clients.SocketClient.Converse | TCP_UDP_client.py:236-237 | with a socket, the send is recorded and, unless it raises, the receive too, and the outcome is the reply or the raising stage; without a socket nothing is recorded and the answer is empty |
| Clients.SocketClient.TcpHandleMessage | TCP_UDP_client.py:228-241 | the new socket and the calls made are those of `TcpExchange`, and every socket is closed afterwards |
| Clients.SocketClient.UdpHandleMessage | TCP_UDP_client.py:277-281 | the calls made are those of `UdpExchange` and the socket is kept |
| Clients.SocketClient.HandleMessage | TCP_UDP_client.py:186 | dispatches to the protocol's handler and keeps the client's invariant |
| Clients.SocketClient.MessageLoop | TCP_UDP_client.py:180-194 | the loop's ending, its count of handled lines, the calls it makes and the final socket are those of `Session` |
| Clients.CreateClient | TCP_UDP_client.py:306-311 | returns a new client of the requested protocol; a UDP client holds its first socket already; only a UDP socket failure yields no client |
| Setup.ResolveUrl | TCP_UDP_client.py:332-334 | a blank URL answer becomes `example.com`; any other answer is used stripped |
| Setup.ResolvePort | TCP_UDP_client.py:337-345 | the port is what `int()` reads from the stripped answer, or 8080 when that is blank or not an integer; for an answer without FS, GS, RS or US this is `int()` of the answer itself |
| Setup.PortAnswerRoundTrip | TCP_UDP_client.py:337-345 | typing `str(n)` as the port gives `n` |
| Setup.ParseProtocol | TCP_UDP_client.py:352-358 | a blank protocol answer chooses TCP |
| Setup.ProtocolAnswer | TCP_UDP_client.py:352-358 | a blank answer or `tcp` in any case and spacing chooses TCP; `udp` chooses UDP; anything else is rejected |
| Setup.SelectProtocol | TCP_UDP_client.py:351-360 | the prompt repeats until a valid answer; every answer before it was rejected; input that ends first gives no protocol |
| Setup.GetUserInput | TCP_UDP_client.py:332-362 | a URL that does not parse stops setup before the protocol prompt; otherwise the settings carry the parsed host and port and the first valid protocol |
| Setup.DefaultSetup | TCP_UDP_client.py:332-354 | blank answers give `example.com`, port 8080 and TCP |
| Setup.UrlPortWins | TCP_UDP_client.py:337-348 | a port written in the URL wins over the port answer |

## Left out

- `TimeoutHandler` and its `SIGALRM` alarm. The inactivity timeout is signal handling and is not modelled.
- Real socket I/O. Data, addresses, the 1024-byte receive buffer and UTF-8 encoding and decoding are not modelled. A call either raises `socket.error` or delivers the answer that its `Fate` gives.
- Prompts and printed messages, `input()` and `sys.exit()`. Input lines are parameters. End of input stops the loop (`InputEnded`, `NoProtocol`). A failed UDP socket creation yields no client (`CreateClient` returns `None`).
- `SocketClient.run`, `ClientApplication.run` and `main`. `ClientApplication.run` and `main` catch nothing, so a `ValueError` from `extract_host_port` or an `EOFError` at a setup prompt ends the program with a traceback. The model reports the first as `BadAddress` and the second as running out of input lines. `SocketClient.run` catches any `Exception` that escapes the loop, prints it and calls `sys.exit()`.
- Exceptions from socket use other than `socket.error`. A non-UTF-8 answer makes `receive_message` raise `UnicodeDecodeError`, a subclass of `ValueError`. `connect` and `sendto` raise `OverflowError` for a port outside 0..65535. Neither is modelled: for such a port the `Fate` can still deliver an answer. In the program both escape the loop and end it through `SocketClient.run`'s handler.
- PyText.PyInt: does not model CPython's limit of 4300 digits on int/str conversion, a runtime setting. A longer digit string converts in the model but raises ValueError in Python, so PyText.PyIntOfIntString, Setup.PortAnswerRoundTrip, Setup.UrlPortWins, UrlParser.HostPortOverridesDefault and UrlParser.SchemeHostPortOverridesDefault hold in Python only for numbers of at most 4300 digits.
- The validation `urllib.parse.urlparse` does on the netloc. IPv6 brackets and the NFKC check for non-ASCII netlocs are not modelled. The netloc is cut at the first `/`, `?` or `#`, after leading C0 controls and spaces are stripped and tabs and line breaks are deleted.
- UrlParser.BareHostTakesDefaultPort, UrlParser.SchemeHostTakesDefaultPort, UrlParser.HostPortOverridesDefault, UrlParser.SchemeHostPortOverridesDefault and Setup.UrlPortWins: they also claim success for hosts holding `[`, `]` or non-ASCII characters. For some such hosts `urlsplit` raises ValueError ("Invalid IPv6 URL", or the NFKC netloc check), which is not modelled.
- Unicode digits in `int()`. Only ASCII digits are accepted. Upper and lower case are modelled for ASCII letters only.
- The UDP socket is never closed by the client. The model keeps that: no close event is ever recorded for it.
- UrlParser.ManyColonsFail: stated about the netloc that `extract_host_port` splits, not about a whole URL.
