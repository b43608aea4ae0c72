/** `URLParser.extract_host_port`: turns a loosely written server address
    into a `(host, port)` pair. The address gets an `http://` prefix unless
    it already starts with `letters://`; the authority part (the text after
    `//` up to the first `/`, `?` or `#`, section 3.2 of RFC 3986), as
    Python's `urllib.parse.urlparse` extracts it, is then split on `:`. */
module UrlParser {
  import opened Wrappers
  import opened PyText

  // ---------------------------------------------------------------------
  // re.match(r'^[a-zA-Z]+://', url)
  // ---------------------------------------------------------------------

  /** The length of the run of ASCII letters `s` starts with. */
  function LetterRun(s: string): (n: nat)
    ensures n <= |s|
    ensures forall i :: 0 <= i < n ==> IsAsciiLetter(s[i])
    ensures n == |s| || !IsAsciiLetter(s[n])
  {
    if |s| > 0 && IsAsciiLetter(s[0]) then 1 + LetterRun(s[1..]) else 0
  }

  /** The regular expression read literally: `k` letters, then `://`. */
  predicate SchemeRegexMatchesAt(url: string, k: nat)
  {
    0 < k && k + 3 <= |url| && (forall i :: 0 <= i < k ==> IsAsciiLetter(url[i])) && url[k..k + 3] == "://"
  }

  /** The regular expression `^[a-zA-Z]+://` matches `url`: the letter run
      `url` starts with is followed by `://`. It holds exactly when the
      expression matches somewhere, and the match then covers the whole
      letter run, since letters are not `:`. */
  predicate HasSchemePrefix(url: string): (b: bool)
    ensures b ==> SchemeRegexMatchesAt(url, LetterRun(url))
    ensures forall k: nat :: SchemeRegexMatchesAt(url, k) ==> b && k == LetterRun(url)
  {
    RegexMatchIsLetterRun(url);
    var n := LetterRun(url);
    n > 0 && n + 3 <= |url| && url[n..n + 3] == "://"
  }

  /** A match of the regular expression ends where the letter run does. */
  lemma RegexMatchIsLetterRun(url: string)
    ensures forall k: nat :: SchemeRegexMatchesAt(url, k) ==> k == LetterRun(url)
  {
    forall k: nat | SchemeRegexMatchesAt(url, k) ensures k == LetterRun(url) {
      assert url[k] == url[k..k + 3][0] == ':';
    }
  }

  /** The letter run of `a + b`, when `a` is all letters, covers `a`. */
  lemma {:induction false} LetterRunOfLetters(a: string, b: string)
    requires forall i :: 0 <= i < |a| ==> IsAsciiLetter(a[i])
    ensures LetterRun(a + b) == |a| + LetterRun(b)
  {
    if |a| > 0 {
      assert (a + b)[1..] == a[1..] + b;
      LetterRunOfLetters(a[1..], b);
    } else {
      assert a + b == b;
    }
  }

  /** A url in which no `:/` occurs at or before position `k`, where a
      non-letter (or the end) stands, has no scheme prefix. */
  lemma NoSchemePrefix(x: string, k: nat)
    requires k <= |x| && (k == |x| || !IsAsciiLetter(x[k]))
    requires forall i :: 0 <= i <= k && i + 1 < |x| ==> !(x[i] == ':' && x[i + 1] == '/')
    ensures !HasSchemePrefix(x)
  {
    var n := LetterRun(x);
    assert n <= k;
    assert n + 3 <= |x| ==> x[n] == x[n..n + 3][0] && x[n + 1] == x[n..n + 3][1];
  }

  /** The url the parser works on: the input, or `http://` + the input when
      the input has no `letters://` prefix. */
  function WithDefaultScheme(url: string): (full: string)
    ensures HasSchemePrefix(full)
    ensures HasSchemePrefix(url) ==> full == url
  {
    if HasSchemePrefix(url) then url
    else
      LetterRunOfLetters("http", "://" + url);
      assert "http://" + url == "http" + ("://" + url);
      "http://" + url
  }

  // ---------------------------------------------------------------------
  // urllib.parse.urlparse(url).netloc
  // ---------------------------------------------------------------------

  /** The characters Python's `urllib.parse` allows in a scheme. */
  predicate IsSchemeChar(c: char)
  {
    IsAsciiLetter(c) || IsDigit(c) || c == '+' || c == '-' || c == '.'
  }

  /** The WHATWG "C0 control or space" characters `urlsplit` strips from the
      front of a url. */
  predicate IsC0OrSpace(c: char)
  {
    c <= ' '
  }

  function LStripC0(s: string): (r: string)
    ensures r == [] || !IsC0OrSpace(r[0])
  {
    if |s| > 0 && IsC0OrSpace(s[0]) then LStripC0(s[1..]) else s
  }

  /** Tab, carriage return and line feed, which `urlsplit` deletes
      wherever they occur. */
  predicate IsUnsafe(c: char)
  {
    c == '\t' || c == '\r' || c == '\n'
  }

  function RemoveUnsafe(s: string): (r: string)
    ensures forall i :: 0 <= i < |r| ==> !IsUnsafe(r[i])
  {
    if |s| == 0 then [] else (if IsUnsafe(s[0]) then [] else [s[0]]) + RemoveUnsafe(s[1..])
  }

  /** The index of the first `c` in `s`, or `|s|` (`str.find` without -1). */
  function IndexOf(s: string, c: char): (i: nat)
    ensures i <= |s| && (i < |s| ==> s[i] == c)
    ensures forall j :: 0 <= j < i ==> s[j] != c
  {
    if |s| == 0 then 0 else if s[0] == c then 0 else 1 + IndexOf(s[1..], c)
  }

  /** The characters that end an authority: path, query, fragment. */
  predicate IsDelimiter(c: char)
  {
    c == '/' || c == '?' || c == '#'
  }

  /** Where the authority that `s` starts with ends. */
  function AuthorityEnd(s: string): (n: nat)
    ensures n <= |s| && (n < |s| ==> IsDelimiter(s[n]))
    ensures forall i :: 0 <= i < n ==> !IsDelimiter(s[i])
  {
    if |s| == 0 || IsDelimiter(s[0]) then 0 else 1 + AuthorityEnd(s[1..])
  }

  /** The authority `s` starts with: the text before the first delimiter. */
  function Authority(s: string): (a: string)
    ensures forall i :: 0 <= i < |a| ==> !IsDelimiter(a[i])
  {
    s[..AuthorityEnd(s)]
  }

  /** What `urlsplit` leaves after taking off a scheme: when the text before
      the first `:` is a valid scheme (an ASCII letter, then letters, digits,
      `+`, `-` or `.`), the text after that colon; otherwise all of `u`. */
  function AfterScheme(u: string): string
  {
    var i := IndexOf(u, ':');
    if 0 < i < |u| && IsAsciiLetter(u[0]) && AllSchemeChars(u[..i])
    then u[i + 1..] else u
  }

  predicate AllSchemeChars(s: string)
  {
    forall k :: 0 <= k < |s| ==> IsSchemeChar(s[k])
  }

  /** The netloc of what follows the scheme: the authority after a leading
      `//`, or nothing. */
  function NetlocAfterScheme(rest: string): (netloc: string)
    ensures forall i :: 0 <= i < |netloc| ==> !IsDelimiter(netloc[i])
  {
    if |rest| >= 2 && rest[..2] == "//" then Authority(rest[2..]) else ""
  }

  /** `urlsplit(url).netloc`: leading controls are stripped and tabs and
      line breaks deleted, the scheme is split off, and the netloc is the
      authority after `//`. */
  function Netloc(url: string): (netloc: string)
    ensures forall i :: 0 <= i < |netloc| ==> !IsDelimiter(netloc[i])
  {
    NetlocAfterScheme(AfterScheme(RemoveUnsafe(LStripC0(url))))
  }

  lemma {:induction false} RemoveUnsafeConcat(a: string, b: string)
    ensures RemoveUnsafe(a + b) == RemoveUnsafe(a) + RemoveUnsafe(b)
  {
    if |a| > 0 {
      assert (a + b)[1..] == a[1..] + b;
      RemoveUnsafeConcat(a[1..], b);
    } else {
      assert a + b == b;
    }
  }

  lemma {:induction false} RemoveUnsafeOfSafe(a: string)
    requires forall i :: 0 <= i < |a| ==> !IsUnsafe(a[i])
    ensures RemoveUnsafe(a) == a
  {
    if |a| > 0 {
      RemoveUnsafeOfSafe(a[1..]);
      assert [a[0]] + a[1..] == a;
    }
  }

  /** The authority of `x + y` is `x` when `x` holds no delimiter and `y`
      is empty or starts with one. */
  lemma AuthorityOfPrefix(x: string, y: string)
    requires forall i :: 0 <= i < |x| ==> !IsDelimiter(x[i])
    requires y == [] || IsDelimiter(y[0])
    ensures Authority(x + y) == x
  {
    var s := x + y;
    var n := AuthorityEnd(s);
    assert forall i :: 0 <= i < |x| ==> s[i] == x[i];
    assert |x| < |s| ==> s[|x|] == y[0];
    assert n == |x|;
    assert s[..|x|] == x;
  }

  /** The netloc of `scheme://rest` for a scheme of ASCII letters is the
      authority of `rest`, tabs and line breaks deleted: the scheme itself
      plays no part. */
  lemma NetlocOfSchemeUrl(scheme: string, rest: string)
    requires |scheme| > 0 && forall i :: 0 <= i < |scheme| ==> IsAsciiLetter(scheme[i])
    ensures Netloc(scheme + "://" + rest) == Authority(RemoveUnsafe(rest))
  {
    var url := scheme + "://" + rest;
    assert url[0] == scheme[0];
    assert LStripC0(url) == url;
    RemoveUnsafeOfSchemeUrl(scheme, rest);
    var r := RemoveUnsafe(rest);
    AfterSchemeOfLetters(scheme, "//" + r);
    NetlocAfterSlashes(r);
  }

  /** Deleting tabs and line breaks leaves `scheme://` in front alone. */
  lemma RemoveUnsafeOfSchemeUrl(scheme: string, rest: string)
    requires forall i :: 0 <= i < |scheme| ==> IsAsciiLetter(scheme[i])
    ensures RemoveUnsafe(scheme + "://" + rest) == scheme + [':'] + ("//" + RemoveUnsafe(rest))
  {
    var head := scheme + "://";
    RemoveUnsafeConcat(head, rest);
    RemoveUnsafeOfSafe(head) by {
      forall i | 0 <= i < |head| ensures !IsUnsafe(head[i]) {
        if i < |scheme| { assert head[i] == scheme[i]; }
      }
    }
    SchemeUrlShape(scheme, RemoveUnsafe(rest));
  }

  lemma SchemeUrlShape(scheme: string, r: string)
    ensures scheme + "://" + r == scheme + [':'] + ("//" + r)
  {
    assert "://" == [':'] + "//";
  }

  lemma NetlocAfterSlashes(r: string)
    ensures NetlocAfterScheme("//" + r) == Authority(r)
  {
    assert ("//" + r)[..2] == "//";
    assert ("//" + r)[2..] == r;
  }

  /** A scheme of ASCII letters and its colon are split off. */
  lemma AfterSchemeOfLetters(scheme: string, tail: string)
    requires |scheme| > 0 && forall i :: 0 <= i < |scheme| ==> IsAsciiLetter(scheme[i])
    ensures AfterScheme(scheme + [':'] + tail) == tail
  {
    var head := scheme + [':'];
    var u := head + tail;
    var i := IndexOf(u, ':');
    assert u[|scheme|] == ':';
    assert forall k :: 0 <= k < |scheme| ==> u[k] == scheme[k];
    assert i == |scheme|;
    assert u[..i] == scheme;
    assert u[i + 1..] == tail;
  }

  // ---------------------------------------------------------------------
  // extract_host_port
  // ---------------------------------------------------------------------

  /** The ValueErrors `extract_host_port` lets escape: the netloc splits on
      `:` into more than the two names it is unpacked into, or the text after
      the colon is not an integer literal for `int()`. */
  datatype ParseError = UnpackError(pieces: nat) | PortNotInteger(text: string)

  /** The authority `extract_host_port` reads host and port from: the
      netloc of the url after the default scheme is put in front. */
  function AuthorityOf(url: string): (a: string)
    ensures forall i :: 0 <= i < |a| ==> !IsDelimiter(a[i])
  {
    Netloc(WithDefaultScheme(url))
  }

  /** The second half of `extract_host_port`: a netloc without a colon is
      the host, with the default port; a netloc with a colon must split
      into exactly a host and an integer literal, which overrides the
      default. A returned host never contains `:`, `/`, `?` or `#`. */
  function SplitHostPort(netloc: string, defaultPort: int): (r: Result<(string, int), ParseError>)
    requires forall i :: 0 <= i < |netloc| ==> !IsDelimiter(netloc[i])
    ensures r.Success? ==> forall i :: 0 <= i < |r.value.0| ==> r.value.0[i] != ':' && !IsDelimiter(r.value.0[i])
    ensures ':' !in netloc ==> r == Success((netloc, defaultPort))
    ensures r.Success? && ':' in netloc ==>
              |Split(netloc, ':')| == 2 && netloc == r.value.0 + [':'] + Split(netloc, ':')[1] && PyInt(Split(netloc, ':')[1]) == Some(r.value.1)
  {
    if ':' in netloc then
      var pieces := Split(netloc, ':');
      if |pieces| != 2 then Failure(UnpackError(|pieces|))
      else
        SplitInTwo(netloc, ':');
        match PyInt(pieces[1])
        case None => Failure(PortNotInteger(pieces[1]))
        case Some(port) => Success((pieces[0], port))
    else
      Success((netloc, defaultPort))
  }

  /** `URLParser.extract_host_port(url, default_port)`. */
  function ExtractHostPort(url: string, defaultPort: int): (r: Result<(string, int), ParseError>)
    ensures r.Success? ==> forall i :: 0 <= i < |r.value.0| ==> r.value.0[i] != ':' && !IsDelimiter(r.value.0[i])
    ensures ':' !in AuthorityOf(url) ==> r == Success((AuthorityOf(url), defaultPort))
    ensures r.Success? && ':' in AuthorityOf(url) ==> PyInt(Split(AuthorityOf(url), ':')[1]) == Some(r.value.1)
  {
    SplitHostPort(AuthorityOf(url), defaultPort)
  }

  // ---------------------------------------------------------------------
  // What extract_host_port promises
  // ---------------------------------------------------------------------

  /** A host as the address forms write it: no `:`, no delimiter, no tab or
      line break. Brackets and non-ASCII characters are not excluded, although
      `urlsplit` rejects some netlocs holding them. */
  predicate IsPlainHost(h: string)
  {
    forall i :: 0 <= i < |h| ==> h[i] != ':' && !IsDelimiter(h[i]) && !IsUnsafe(h[i])
  }

  /** What may follow the authority: nothing, or a path, query or fragment. */
  predicate IsTail(t: string)
  {
    t == [] || IsDelimiter(t[0])
  }

  predicate IsScheme(s: string)
  {
    |s| > 0 && forall i :: 0 <= i < |s| ==> IsAsciiLetter(s[i])
  }

  /** `scheme://rest` keeps its scheme, and its authority is that of `rest`
      with tabs and line breaks deleted. */
  lemma SchemeUrlAuthority(scheme: string, rest: string)
    requires IsScheme(scheme)
    ensures AuthorityOf(scheme + "://" + rest) == Authority(RemoveUnsafe(rest))
  {
    SchemeUrlHasPrefix(scheme, rest);
    NetlocOfSchemeUrl(scheme, rest);
  }

  lemma SchemeUrlHasPrefix(scheme: string, rest: string)
    requires IsScheme(scheme)
    ensures HasSchemePrefix(scheme + "://" + rest)
  {
    var tail := "://" + rest;
    var u := scheme + "://" + rest;
    assert u == scheme + tail;
    LetterRunOfLetters(scheme, tail);
    assert LetterRun(tail) == 0 by { assert tail[0] == ':'; }
    assert u[|scheme|..|scheme| + 3] == "://";
  }

  lemma HttpUrlAuthority(rest: string)
    ensures AuthorityOf("http://" + rest) == Authority(RemoveUnsafe(rest))
  {
    assert "http://" + rest == "http" + "://" + rest;
    SchemeUrlAuthority("http", rest);
  }

  /** An input without a `letters://` prefix parses as if `http://` had
      been written in front of it. */
  lemma BareAddressGetsHttp(url: string, defaultPort: int)
    requires !HasSchemePrefix(url)
    ensures ExtractHostPort(url, defaultPort) == ExtractHostPort("http://" + url, defaultPort)
  {
    assert WithDefaultScheme(url) == "http://" + url;
  }

  /** The scheme is ignored: `scheme://rest` gives the same host and port as
      `http://rest`. */
  lemma SchemeIsIgnored(scheme: string, rest: string, defaultPort: int)
    requires IsScheme(scheme)
    ensures ExtractHostPort(scheme + "://" + rest, defaultPort) == ExtractHostPort("http://" + rest, defaultPort)
  {
    SchemeUrlAuthority(scheme, rest);
    HttpUrlAuthority(rest);
  }

  /** The authority of `x + t` is `x`, for an `x` of host characters (and
      any number of colons) followed by a tail `t`. */
  lemma AuthorityOfHostText(x: string, t: string)
    requires forall i :: 0 <= i < |x| ==> !IsDelimiter(x[i]) && !IsUnsafe(x[i])
    requires IsTail(t)
    ensures Authority(RemoveUnsafe(x + t)) == x
  {
    RemoveUnsafeConcat(x, t);
    RemoveUnsafeOfSafe(x);
    AuthorityOfPrefix(x, RemoveUnsafe(t));
  }

  /** A bare host (a name or an IPv4 literal), with or without a path, gets
      the default port. */
  lemma BareHostTakesDefaultPort(host: string, tail: string, defaultPort: int)
    requires IsPlainHost(host) && IsTail(tail)
    ensures ExtractHostPort(host + tail, defaultPort) == Success((host, defaultPort))
  {
    var x := host + tail;
    NoSchemePrefix(x, |host|) by {
      if |host| < |x| { assert x[|host|] == tail[0]; }
      forall i | 0 <= i <= |host| && i + 1 < |x| ensures !(x[i] == ':' && x[i + 1] == '/') {
        if i < |host| { assert x[i] == host[i]; } else { assert x[i] == tail[0]; }
      }
    }
    assert WithDefaultScheme(x) == "http://" + x;
    HttpUrlAuthority(x);
    AuthorityOfHostText(host, tail);
    assert ':' !in host;
  }

  /** `scheme://host`, with or without a path, gets the default port. */
  lemma SchemeHostTakesDefaultPort(scheme: string, host: string, tail: string, defaultPort: int)
    requires IsScheme(scheme) && IsPlainHost(host) && IsTail(tail)
    ensures ExtractHostPort(scheme + "://" + (host + tail), defaultPort) == Success((host, defaultPort))
  {
    SchemeUrlAuthority(scheme, host + tail);
    AuthorityOfHostText(host, tail);
    assert ':' !in host;
  }

  /** The characters `str(port)` is made of are host characters. */
  lemma IntStringChars(p: int)
    ensures |IntString(p)| > 0
    ensures forall i :: 0 <= i < |IntString(p)| ==> IsDigit(IntString(p)[i]) || IntString(p)[i] == '-'
  {
    if p < 0 {
      var ds := DecimalString(-p);
      forall i | 0 <= i < |IntString(p)| ensures IsDigit(IntString(p)[i]) || IntString(p)[i] == '-' {
        if i > 0 { assert IntString(p)[i] == ds[i - 1]; }
      }
    }
  }

  /** `host:text` with host characters on both sides, as text. */
  lemma HostColonText(host: string, text: string)
    requires IsPlainHost(host) && IsPlainHost(text)
    ensures var x := host + [':'] + text;
            (forall i :: 0 <= i < |x| ==> !IsDelimiter(x[i]) && !IsUnsafe(x[i])) &&
            Split(x, ':') == [host, text]
  {
    var x := host + [':'] + text;
    forall i | 0 <= i < |x| ensures !IsDelimiter(x[i]) && !IsUnsafe(x[i]) {
      if i < |host| { assert x[i] == host[i]; }
      else if i > |host| { assert x[i] == text[i - |host| - 1]; }
    }
    assert ':' !in host && ':' !in text;
    SplitAtSoleSeparator(host, text, ':');
  }

  lemma IntStringIsPlainHost(p: int)
    ensures IsPlainHost(IntString(p)) && |IntString(p)| > 0
  {
    IntStringChars(p);
  }

  /** `host:port`, with or without a path: the port written in the address
      overrides the default. */
  lemma HostPortOverridesDefault(host: string, p: int, tail: string, defaultPort: int)
    requires IsPlainHost(host) && IsTail(tail)
    ensures ExtractHostPort(host + [':'] + IntString(p) + tail, defaultPort) == Success((host, p))
  {
    var ps := IntString(p);
    IntStringIsPlainHost(p);
    HostTextAuthorityOfBareAddress(host, ps, tail);
    HostTextNetloc(host, ps, defaultPort);
    PyIntOfIntString(p);
  }

  /** `host:text` without a scheme is read as `http://host:text`. */
  lemma HostTextAuthorityOfBareAddress(host: string, text: string, tail: string)
    requires IsPlainHost(host) && IsPlainHost(text) && |text| > 0 && IsTail(tail)
    ensures AuthorityOf(host + [':'] + text + tail) == host + [':'] + text
  {
    var x := host + [':'] + text + tail;
    NoSchemePrefix(x, |host|) by {
      assert x[|host|] == ':';
      forall i | 0 <= i <= |host| && i + 1 < |x| ensures !(x[i] == ':' && x[i + 1] == '/') {
        if i < |host| { assert x[i] == host[i]; }
        else { assert x[i + 1] == text[0]; }
      }
    }
    assert WithDefaultScheme(x) == "http://" + x;
    assert "http://" + x == "http" + "://" + x;
    HostTextAuthority("http", host, text, tail);
  }


  /** `scheme://host:port`, with or without a path: the port written in the
      address overrides the default, whatever the scheme. */
  lemma SchemeHostPortOverridesDefault(scheme: string, host: string, p: int, tail: string, defaultPort: int)
    requires IsScheme(scheme) && IsPlainHost(host) && IsTail(tail)
    ensures ExtractHostPort(scheme + "://" + (host + [':'] + IntString(p) + tail), defaultPort) == Success((host, p))
  {
    IntStringIsPlainHost(p);
    HostTextAuthority(scheme, host, IntString(p), tail);
    HostTextNetloc(host, IntString(p), defaultPort);
    PyIntOfIntString(p);
  }

  /** The netloc `host:text` splits into the host and whatever `int()`
      makes of the text. */
  lemma HostTextNetloc(host: string, text: string, defaultPort: int)
    requires IsPlainHost(host) && IsPlainHost(text)
    ensures var n := host + [':'] + text;
            (forall i :: 0 <= i < |n| ==> !IsDelimiter(n[i])) &&
            SplitHostPort(n, defaultPort) ==
              match PyInt(text)
              case None => Failure(PortNotInteger(text))
              case Some(port) => Success((host, port))
  {
    HostColonText(host, text);
    assert (host + [':'] + text)[|host|] == ':';
  }

  /** The authority of `scheme://host:text` followed by a tail. */
  lemma HostTextAuthority(scheme: string, host: string, text: string, tail: string)
    requires IsScheme(scheme) && IsPlainHost(host) && IsPlainHost(text) && IsTail(tail)
    ensures AuthorityOf(scheme + "://" + (host + [':'] + text + tail)) == host + [':'] + text
  {
    var a := host + [':'] + text;
    SchemeUrlAuthority(scheme, a + tail);
    HostColonText(host, text);
    AuthorityOfHostText(a, tail);
  }

  /** An authority with a colon and nothing after it fails: `int('')`
      raises. */
  lemma EmptyPortFails(scheme: string, host: string, tail: string, defaultPort: int)
    requires IsScheme(scheme) && IsPlainHost(host) && IsTail(tail)
    ensures ExtractHostPort(scheme + "://" + (host + [':'] + tail), defaultPort) == Failure(PortNotInteger(""))
  {
    assert host + [':'] + tail == host + [':'] + "" + tail;
    HostTextAuthority(scheme, host, "", tail);
    HostTextNetloc(host, "", defaultPort);
    assert Strip("") == "";
  }

  /** A port text holding a character `int()` never accepts (a letter, a
      dot, an information separator, ...) fails. */
  lemma NonNumericPortFails(scheme: string, host: string, portText: string, tail: string, defaultPort: int)
    requires IsScheme(scheme) && IsPlainHost(host) && IsPlainHost(portText) && IsTail(tail)
    requires exists i :: 0 <= i < |portText| && (!IsIntChar(portText[i]) || IsInfoSeparator(portText[i]))
    ensures ExtractHostPort(scheme + "://" + (host + [':'] + portText + tail), defaultPort) == Failure(PortNotInteger(portText))
  {
    HostTextAuthority(scheme, host, portText, tail);
    HostTextNetloc(host, portText, defaultPort);
    if PyInt(portText).Some? {
      PyIntChars(portText);
    }
  }

  /** A netloc with more than one colon fails: the split does not unpack
      into exactly two names. */
  lemma ManyColonsFail(netloc: string, defaultPort: int)
    requires forall i :: 0 <= i < |netloc| ==> !IsDelimiter(netloc[i])
    requires Count(netloc, ':') >= 2
    ensures SplitHostPort(netloc, defaultPort) == Failure(UnpackError(Count(netloc, ':') + 1))
  {
    ColonsGivePieces(netloc);
    UnpackFails(netloc, defaultPort);
  }

  /** A netloc with a colon that does not split into exactly two pieces
      raises the unpacking ValueError. */
  lemma UnpackFails(netloc: string, defaultPort: int)
    requires forall i :: 0 <= i < |netloc| ==> !IsDelimiter(netloc[i])
    requires ':' in netloc && |Split(netloc, ':')| != 2
    ensures SplitHostPort(netloc, defaultPort) == Failure(UnpackError(|Split(netloc, ':')|))
  {
  }

  /** Two or more colons: a colon occurs, and the split has more than two
      pieces. */
  lemma ColonsGivePieces(netloc: string)
    requires Count(netloc, ':') >= 2
    ensures ':' in netloc && |Split(netloc, ':')| == Count(netloc, ':') + 1
  {
    if ':' !in netloc {
      NoColonCountsZero(netloc);
    }
  }

  lemma {:induction false} NoColonCountsZero(s: string)
    requires ':' !in s
    ensures Count(s, ':') == 0
  {
    if |s| > 0 {
      assert ':' !in s[1..];
      NoColonCountsZero(s[1..]);
    }
  }

  /** The address `localhost` with default port 8080 is `("localhost", 8080)`. */
  lemma LocalhostExample()
    ensures ExtractHostPort("localhost", 8080) == Success(("localhost", 8080))
  {
    BareHostTakesDefaultPort("localhost", "", 8080);
    assert "localhost" + "" == "localhost";
  }

  /** The address `tcp://example.com:9000` with default port 8080 is
      `("example.com", 9000)`: the scheme does not select anything. */
  lemma SchemeWithPortExample()
    ensures ExtractHostPort("tcp://example.com:9000", 8080) == Success(("example.com", 9000))
  {
    assert IntString(9000) == "9000" by {
      assert DecimalString(9) == "9";
      assert DecimalString(90) == "90";
      assert DecimalString(900) == "900";
    }
    SchemeHostPortOverridesDefault("tcp", "example.com", 9000, "", 8080);
    SchemeWithPortText();
  }

  /** `h:\x1c80` fails although `str.strip()` would remove the FS
      character: `int()` does not skip it. */
  lemma InfoSeparatorPortExample()
    ensures ExtractHostPort("h" + [':'] + "\U{1c}80", 8080) == Failure(PortNotInteger("\U{1c}80"))
  {
    var text := "\U{1c}80";
    HostTextAuthorityOfBareAddress("h", text, "");
    HostTextNetloc("h", text, 8080);
    assert IsInfoSeparator(text[0]);
    assert "h" + [':'] + text + "" == "h" + [':'] + text;
  }

  lemma SchemeWithPortText()
    ensures "tcp" + "://" + ("example.com" + [':'] + "9000" + "") == "tcp://example.com:9000"
  {
    assert "example.com" + [':'] + "9000" + "" == "example.com:9000";
  }
}
