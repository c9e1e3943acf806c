/** WebSocket URIs (websocketpp uri.hpp): the parsing constructor against the printer. */
module Uri {
  import opened CLibrary
  import opened Common
  import opened IntegerText

  datatype Uri = Uri(scheme: string, secure: bool, host: string, port: int, resource: string)

  const DEFAULT_PORT := 80
  const DEFAULT_SECURE_PORT := 443

  function DefaultPort(secure: bool): int {
    if secure then DEFAULT_SECURE_PORT else DEFAULT_PORT
  }

  // ---------------------------------------------------------------------
  // Printing
  // ---------------------------------------------------------------------

  /** str: the port appears only if it is not the default one. */
  function Str(u: Uri): string
    requires u.port >= 0
  {
    u.scheme + "://" + u.host
    + (if u.port != DefaultPort(u.secure) then ":" + Digits(u.port) else "")
    + u.resource
  }

  // ---------------------------------------------------------------------
  // Ports
  // ---------------------------------------------------------------------

  /** get_port_from_string; None is the invalid-port error. A negative number turns
      into a large one as it becomes unsigned. */
  function PortFromString(port: string, secure: bool): (p: Option<int>)
    ensures p.Some? ==> 1 <= p.value <= 65535
  {
    if port == [] then Some(DefaultPort(secure))
    else
      var t := Atoi(port) % 0x1_0000_0000;
      if t > 65535 || t == 0 then None else Some(t)
  }

  /** A printed port is read back. */
  lemma PortRoundTrip(port: int, secure: bool)
    requires 1 <= port <= 65535
    ensures PortFromString(Digits(port), secure) == Some(port)
  {
    hide Digits, DigitsValue, DigitPrefix;
    var s := Digits(port);
    assert s + [] == s;
    DigitPrefixOf(s, []);
    DigitsValueOfDigits(port);
    assert IsDigit(s[0]);
    assert SkipSpace(s) == s;
    assert Atoi(s) == port;
  }

  /** A negative port is not refused: it wraps around in 32 bits, and is taken if what
      comes out is a port. */
  lemma NegativePort(n: nat, secure: bool)
    requires n <= LONG_MAX
    ensures PortFromString("-" + Digits(n), secure) ==
      var t := -(n as int) % 0x1_0000_0000; if 1 <= t <= 65535 then Some(t) else None
  {
    hide Digits, DigitsValue, DigitPrefix;
    SignedDigits(n);
    assert Atoi("-" + Digits(n)) == (0x8000_0000 - n) % 0x1_0000_0000 - 0x8000_0000;
  }

  // ---------------------------------------------------------------------
  // What the parser accepts
  // ---------------------------------------------------------------------

  /** The scheme, its security, and where the host begins. Something must follow. */
  function SchemeOf(s: string): (r: Option<(string, bool, nat)>)
    ensures r.Some? ==> r.value.2 < |s|
  {
    if |s| >= 7 && StartsWith(s, "wss://") then Some(("wss", true, 6))
    else if |s| >= 6 && StartsWith(s, "ws://") then Some(("ws", false, 5))
    else if |s| >= 8 && StartsWith(s, "http://") then Some(("http", false, 7))
    else if |s| >= 9 && StartsWith(s, "https://") then Some(("https", true, 8))
    else None
  }

  /** The first position from `at` on whose character is in the set, or the end. */
  function Find(s: string, at: nat, stop: set<char>): (i: nat)
    requires at <= |s|
    ensures at <= i <= |s| && forall k :: at <= k < i ==> s[k] !in stop
    ensures i < |s| ==> s[i] in stop
    decreases |s| - at
  {
    if at == |s| || s[at] in stop then at else Find(s, at + 1, stop)
  }

  datatype Host = Host(name: string, next: nat, portNext: bool)

  /** What follows a host that ends at `at`: nothing, a resource, or a port. */
  function Delimited(name: string, s: string, at: nat): (r: Option<Host>)
    requires at <= |s|
    ensures r.Some? ==> r.value.next <= |s|
  {
    if at == |s| then Some(Host(name, at, false))
    else if s[at] == '/' then Some(Host(name, at + 1, false))
    else if s[at] == ':' then Some(Host(name, at + 1, true))
    else None
  }

  /** The host that begins at `at`; one in brackets is taken without them. */
  function HostOf(s: string, at: nat): (r: Option<Host>)
    requires at < |s|
    ensures r.Some? ==> r.value.next <= |s|
  {
    if s[at] == '[' then
      var end := Find(s, at + 1, {']'});
      if end == |s| then None else Delimited(s[at + 1..end], s, end + 1)
    else
      var end := Find(s, at, {':', '/'});
      Delimited(s[at..end], s, end)
  }

  /** The URI made of the parts; the first slash of the resource is put back. */
  function Assemble(scheme: string, secure: bool, host: string, port: string, rest: string): Option<Uri> {
    match PortFromString(port, secure)
    case None => None
    case Some(p) => Some(Uri(scheme, secure, host, p, "/" + rest))
  }

  function AfterHost(scheme: string, secure: bool, host: Host, s: string): Option<Uri>
    requires host.next <= |s|
  {
    if host.portNext then
      var end := Find(s, host.next, {'/'});
      Assemble(scheme, secure, host.name, s[host.next..end], if end == |s| then "" else s[end + 1..])
    else Assemble(scheme, secure, host.name, "", s[host.next..])
  }

  /** The URI a string stands for. */
  function Parsed(s: string): Option<Uri> {
    match SchemeOf(s)
    case None => None
    case Some((scheme, secure, at)) =>
      match HostOf(s, at)
      case None => None
      case Some(host) => AfterHost(scheme, secure, host, s)
  }

  // ---------------------------------------------------------------------
  // The parsing constructor
  // ---------------------------------------------------------------------

  /** A host in brackets, up to and with the delimiter after it. The state says what
      comes next: 1 a port, 2 the resource; it stays 0 if the host is refused. */
  method ParseBracketedHost(s: string, begin: nat) returns (host: string, it: nat, state: int)
    requires begin < |s| && s[begin] == '['
    ensures HostOf(s, begin) == (if state == 0 then None else Some(Host(host, it, state == 1)))
  {
    host, it, state := "", begin + 1, 0;
    var temp := it;
    while temp != |s|
      invariant it <= temp <= |s| && Find(s, it, {']'}) == Find(s, temp, {']'})
    {
      if s[temp] == ']' {
        break;
      }
      temp := temp + 1;
    }
    if temp == |s| {
      return;
    }
    host := s[it..temp];
    it := temp + 1;
    if it == |s| {
      state := 2;
    } else if s[it] == '/' {
      state := 2;
      it := it + 1;
    } else if s[it] == ':' {
      state := 1;
      it := it + 1;
    }
  }

  /** A host without brackets; it is never refused. */
  method ParsePlainHost(s: string, begin: nat) returns (host: string, it: nat, state: int)
    requires begin < |s| && s[begin] != '['
    ensures state != 0 && HostOf(s, begin) == Some(Host(host, it, state == 1))
  {
    host, it, state := "", begin, 0;
    ghost var end := Find(s, begin, {':', '/'});
    while state == 0
      invariant begin <= it <= |s| && state in {0, 1, 2}
      invariant state == 0 ==> Find(s, it, {':', '/'}) == end && host == s[begin..it]
      invariant state != 0 ==> host == s[begin..end]
      invariant state == 1 ==> end < |s| && s[end] == ':' && it == end + 1
      invariant state == 2 ==> end == |s| == it || (end < |s| && s[end] == '/' && it == end + 1)
      decreases if state == 0 then 1 else 0, |s| - it
    {
      if it == |s| {
        state := 2;
        break;
      } else if s[it] == '/' {
        state := 2;
      } else if s[it] == ':' {
        state := 1;
      } else {
        host := host + [s[it]];
      }
      it := it + 1;
    }
  }

  /** The port, read up to the next slash if the state asks for one. */
  method ParsePort(s: string, begin: nat, next: int) returns (port: string, it: nat)
    requires begin <= |s| && next in {1, 2}
    ensures next != 1 ==> port == "" && it == begin
    ensures next == 1 ==> port == s[begin..Find(s, begin, {'/'})]
    ensures next == 1 ==> it == (var end := Find(s, begin, {'/'}); if end == |s| then end else end + 1)
  {
    port, it := "", begin;
    var state := next;
    ghost var end := Find(s, begin, {'/'});
    while state == 1
      invariant begin <= it <= |s| && state in {1, 2, 3} && (state == 2 <==> next == 2)
      invariant state == 1 ==> Find(s, it, {'/'}) == end && port == s[begin..it]
      invariant state == 3 ==> end < |s| && it == end + 1 && port == s[begin..end]
      invariant state == 2 ==> it == begin && port == ""
      decreases if state == 1 then 1 else 0, |s| - it
    {
      if it == |s| {
        break;
      } else if s[it] == '/' {
        state := 3;
      } else {
        port := port + [s[it]];
      }
      it := it + 1;
    }
  }

  /** The constructor walks one iterator through the string. */
  method Parse(s: string) returns (u: Option<Uri>)
    ensures u == Parsed(s)
  {
    hide SchemeOf, HostOf, PortFromString, Find;
    var start := SchemeOf(s);
    if start == None {
      return None;
    }
    var (scheme, secure, it) := start.value;
    var host, state, port;
    if s[it] == '[' {
      host, it, state := ParseBracketedHost(s, it);
      if state == 0 {
        return None;
      }
    } else {
      host, it, state := ParsePlainHost(s, it);
    }
    port, it := ParsePort(s, it, if state == 1 then 1 else 2);
    assert it == |s| ==> s[it..] == "";
    var p := PortFromString(port, secure);
    if p == None {
      return None;
    }
    u := Some(Uri(scheme, secure, host, p.value, "/" + s[it..]));
  }

  // ---------------------------------------------------------------------
  // Round trips
  // ---------------------------------------------------------------------

  /** The first occurrence is found by pointing at it. */
  lemma {:induction false} FindIs(s: string, at: nat, stop: set<char>, i: nat)
    requires at <= i <= |s| && forall k :: at <= k < i ==> s[k] !in stop
    requires i < |s| ==> s[i] in stop
    ensures Find(s, at, stop) == i
    decreases i - at
  {
    if at < i {
      FindIs(s, at + 1, stop, i);
    }
  }

  predicate KnownScheme(u: Uri) {
    (u.scheme, u.secure) in {("ws", false), ("wss", true), ("http", false), ("https", true)}
  }

  /** A host that printing leaves recognisable. */
  predicate PlainHost(host: string) {
    (forall c :: c in host ==> c != ':' && c != '/') && (host != [] ==> host[0] != '[')
  }

  /** What a program may put into a URI. */
  predicate WellFormed(u: Uri) {
    KnownScheme(u) && 1 <= u.port <= 65535 && u.resource != [] && u.resource[0] == '/'
  }

  /** What Str puts after the scheme and the host. */
  function Tail(u: Uri): string
    requires u.port >= 0
  {
    (if u.port != DefaultPort(u.secure) then ":" + Digits(u.port) else "") + u.resource
  }

  lemma SchemeOfText(u: Uri, s: string, rest: string)
    requires KnownScheme(u) && rest != [] && s == u.scheme + "://" + rest
    ensures SchemeOf(s) == Some((u.scheme, u.secure, |u.scheme| + 3))
  {
    var prefix := u.scheme + "://";
    assert s[..|prefix|] == prefix;
    assert s[0] == prefix[0] && s[1] == prefix[1] && s[2] == prefix[2] && s[4] == prefix[4];
    if u.scheme == "ws" {
      if |s| >= 6 { PrefixAt(s, "wss://", 2); }
    } else if u.scheme == "http" {
      PrefixAt(s, "wss://", 0);
      PrefixAt(s, "ws://", 0);
    } else if u.scheme == "https" {
      PrefixAt(s, "wss://", 0);
      PrefixAt(s, "ws://", 0);
      PrefixAt(s, "http://", 4);
    }
  }

  /** The text after the scheme, and where it starts. */
  lemma PrintedShape(u: Uri)
    requires WellFormed(u)
    ensures var s := Str(u); var n := |u.scheme| + 3;
      && SchemeOf(s) == Some((u.scheme, u.secure, n))
      && n < |s| && s[n..] == u.host + Tail(u)
      && Tail(u) != [] && Tail(u)[0] in {':', '/'}
  {
    hide Digits, SchemeOf;
    var s, n := Str(u), |u.scheme| + 3;
    var rest := u.host + Tail(u);
    assert s == u.scheme + "://" + rest;
    assert s[n..] == rest;
    SchemeOfText(u, s, rest);
  }

  lemma EmptyPort(secure: bool)
    ensures PortFromString("", secure) == Some(DefaultPort(secure))
  {
  }

  /** Everything after a host is read back, wherever the host ends. */
  lemma TailRoundTrip(u: Uri, s: string, end: nat)
    requires WellFormed(u) && end <= |s| && s[end..] == Tail(u)
    ensures var h := Delimited(u.host, s, end);
      h.Some? && AfterHost(u.scheme, u.secure, h.value, s) == Some(u)
  {
    if u.port == DefaultPort(u.secure) {
      BareTail(u, s, end);
    } else {
      PortTail(u, s, end);
    }
  }

  lemma BareTail(u: Uri, s: string, end: nat)
    requires WellFormed(u) && end <= |s| && s[end..] == u.resource && u.port == DefaultPort(u.secure)
    ensures var h := Delimited(u.host, s, end);
      h.Some? && AfterHost(u.scheme, u.secure, h.value, s) == Some(u)
  {
    hide Digits, PortFromString;
    assert s[end] == u.resource[0];
    assert s[end + 1..] == u.resource[1..];
    assert u.resource == "/" + u.resource[1..];
    EmptyPort(u.secure);
  }

  lemma PortTail(u: Uri, s: string, end: nat)
    requires WellFormed(u) && end <= |s| && s[end..] == ":" + Digits(u.port) + u.resource
    ensures var h := Delimited(u.host, s, end);
      h.Some? && AfterHost(u.scheme, u.secure, h.value, s) == Some(u)
  {
    hide Digits, PortFromString, Delimited, AfterHost;
    var digits := Digits(u.port);
    var slash := end + 1 + |digits|;
    assert s[end..][0] == ':' && s[end..][1..|digits| + 1] == digits && s[end..][|digits| + 1..] == u.resource;
    assert s[end] == ':' && s[end + 1..slash] == digits && s[slash..] == u.resource;
    PortThenResource(u, s, end, slash);
  }

  lemma PortThenResource(u: Uri, s: string, end: nat, slash: nat)
    requires WellFormed(u) && end < slash < |s|
    requires s[end] == ':' && s[end + 1..slash] == Digits(u.port) && s[slash..] == u.resource
    ensures var h := Delimited(u.host, s, end);
      h.Some? && AfterHost(u.scheme, u.secure, h.value, s) == Some(u)
  {
    hide Digits, PortFromString;
    PortRoundTrip(u.port, u.secure);
    assert forall k :: end + 1 <= k < slash ==> s[k] == s[end + 1..slash][k - end - 1];
    assert s[slash] == u.resource[0];
    FindIs(s, end + 1, {'/'}, slash);
    assert s[slash + 1..] == u.resource[1..] && u.resource == "/" + u.resource[1..];
  }

  /** A repeated bracket cannot be peeled off and still leave the same host. */
  lemma {:induction false} BracketsRunOn(host: string, tail: string, k: nat)
    requires host != [] && tail != [] && k <= |host|
    requires host[0] == '[' && |host + tail| > |host| && (host + tail)[1..|host| + 1] == host
    ensures (host + tail)[k] == '['
  {
    if k > 0 {
      BracketsRunOn(host, tail, k - 1);
      var all := host + tail;
      assert all[k] == all[1..|host| + 1][k - 1] == host[k - 1] == all[k - 1];
    }
  }

  /** Pointwise view of a text that ends in a host and a tail. */
  lemma HostThenTail(s: string, n: nat, host: string, tail: string)
    requires n <= |s| && s[n..] == host + tail
    ensures |s| == n + |host| + |tail| && s[n..n + |host|] == host
    ensures forall k :: 0 <= k < |host| ==> s[n + k] == host[k]
    ensures forall k :: 0 <= k < |tail| ==> s[n + |host| + k] == tail[k]
  {
    forall k | 0 <= k < |host + tail| ensures s[n + k] == (host + tail)[k] {
      assert s[n + k] == s[n..][k];
    }
    forall k | 0 <= k < |tail| ensures s[n + |host| + k] == tail[k] {
      assert s[n + (|host| + k)] == (host + tail)[|host| + k];
    }
  }

  lemma PlainHostIsFound(s: string, n: nat, host: string, tail: string)
    requires n <= |s| && s[n..] == host + tail && tail != [] && tail[0] in {':', '/'} && PlainHost(host)
    ensures n < |s| && HostOf(s, n) == Delimited(host, s, n + |host|)
  {
    HostThenTail(s, n, host, tail);
    var end := n + |host|;
    assert s[n + |host| + 0] == tail[0];
    forall k | n <= k < end ensures s[k] !in {':', '/'} {
      assert s[n + (k - n)] == host[k - n] && host[k - n] in host;
    }
    assert host != [] ==> s[n + 0] == host[0];
    FindIs(s, n, {':', '/'}, end);
  }

  lemma BracketIsLost(s: string, n: nat, host: string, tail: string)
    requires n <= |s| && s[n..] == host + tail && tail != [] && tail[0] in {':', '/'}
    requires host != [] && host[0] == '['
    ensures n < |s| && (HostOf(s, n).Some? ==> HostOf(s, n).value.name != host)
  {
    hide Find;
    HostThenTail(s, n, host, tail);
    assert s[n + 0] == '[';
    var all := host + tail;
    if HostOf(s, n).Some? && HostOf(s, n).value.name == host {
      var close := Find(s, n + 1, {']'});
      assert host == s[n + 1..close];
      assert all[1..|host| + 1] == s[n + 1..close] by {
        assert all == s[n..];
      }
      BracketsRunOn(host, tail, |host|);
      assert false;
    }
  }

  lemma DelimiterEndsHost(s: string, n: nat, host: string, tail: string, k: nat)
    requires n <= |s| && s[n..] == host + tail && tail != []
    requires k < |host| && host[k] in {':', '/'} && host[0] != '['
    ensures n < |s| && (HostOf(s, n).Some? ==> HostOf(s, n).value.name != host)
  {
    HostThenTail(s, n, host, tail);
    assert s[n + 0] == host[0] && s[n + k] == host[k];
    assert Find(s, n, {':', '/'}) <= n + k;
  }

  /** Which printed hosts are read back as they were. */
  lemma HostRoundTrip(u: Uri)
    requires WellFormed(u)
    ensures var s := Str(u); var n := |u.scheme| + 3; n < |s| && s[n..] == u.host + Tail(u)
    ensures var s := Str(u); var n := |u.scheme| + 3;
      if PlainHost(u.host) then HostOf(s, n) == Delimited(u.host, s, n + |u.host|)
      else HostOf(s, n).Some? ==> HostOf(s, n).value.name != u.host
  {
    hide Tail, Str, Digits, Find, HostOf, SchemeOf, Delimited;
    PrintedShape(u);
    var s, n, h := Str(u), |u.scheme| + 3, u.host;
    if PlainHost(h) {
      PlainHostIsFound(s, n, h, Tail(u));
    } else if h[0] == '[' {
      BracketIsLost(s, n, h, Tail(u));
    } else {
      var k :| 0 <= k < |h| && h[k] in {':', '/'};
      DelimiterEndsHost(s, n, h, Tail(u), k);
    }
  }

  lemma AfterHostKeepsName(scheme: string, secure: bool, host: Host, s: string)
    requires host.next <= |s|
    ensures var u := AfterHost(scheme, secure, host, s); u.Some? ==> u.value.host == host.name
  {
    hide PortFromString, Find;
  }

  /** Printing and parsing again gives back exactly the URIs with a plain host. */
  lemma UriRoundTrip(u: Uri)
    requires WellFormed(u)
    ensures Parsed(Str(u)) == Some(u) <==> PlainHost(u.host)
  {
    hide Tail, Digits, Find, PortFromString, SchemeOf, HostOf, Str, AfterHost, Delimited, PlainHost;
    PrintedShape(u);
    HostRoundTrip(u);
    var s, n := Str(u), |u.scheme| + 3;
    if PlainHost(u.host) {
      assert s[n + |u.host|..] == Tail(u) by {
        assert s[n..][|u.host|..] == Tail(u);
      }
      TailRoundTrip(u, s, n + |u.host|);
    } else if HostOf(s, n).Some? {
      AfterHostKeepsName(u.scheme, u.secure, HostOf(s, n).value, s);
    }
  }

  lemma PlainHostIsPlain(s: string, at: nat)
    requires at < |s| && s[at] != '['
    ensures HostOf(s, at).Some? ==> PlainHost(HostOf(s, at).value.name)
  {
    hide Find;
    var end := Find(s, at, {':', '/'});
    assert forall k :: 0 <= k < end - at ==> s[at..end][k] == s[at + k];
  }

  /** What the parser accepts is well formed; without brackets its host is plain. */
  lemma AcceptedIsWellFormed(s: string)
    requires Parsed(s).Some?
    ensures WellFormed(Parsed(s).value)
    ensures s[SchemeOf(s).value.2] != '[' ==> PlainHost(Parsed(s).value.host)
  {
    hide PortFromString, Find, PlainHost;
    var (scheme, secure, at) := SchemeOf(s).value;
    assert (scheme, secure) in {("ws", false), ("wss", true), ("http", false), ("https", true)};
    var host := HostOf(s, at).value;
    assert AfterHost(scheme, secure, host, s) == Parsed(s);
    if s[at] != '[' {
      PlainHostIsPlain(s, at);
    }
  }

  /** So a string that is accepted may be replaced by its printed form if its host is
      not in brackets; with brackets, exactly if what is inside them is a plain host. */
  lemma NormalForm(s: string)
    requires Parsed(s).Some?
    ensures Parsed(s).value.port >= 0
    ensures Parsed(Str(Parsed(s).value)) == Parsed(s) <==>
      (s[SchemeOf(s).value.2] == '[' ==> PlainHost(Parsed(s).value.host))
  {
    hide Tail, Digits, Find, PortFromString, SchemeOf, HostOf, Str, Parsed, PlainHost, KnownScheme;
    AcceptedIsWellFormed(s);
    var u := Parsed(s).value;
    UriRoundTrip(u);
    assert Parsed(s) == Some(u);
  }

  /** Without a port, the two secure schemes mean 443 and the others 80. */
  lemma PortsByScheme(host: string)
    requires PlainHost(host)
    ensures Parsed("ws://" + host + "/") == Some(Uri("ws", false, host, 80, "/"))
    ensures Parsed("http://" + host + "/") == Some(Uri("http", false, host, 80, "/"))
    ensures Parsed("wss://" + host + "/") == Some(Uri("wss", true, host, 443, "/"))
    ensures Parsed("https://" + host + "/") == Some(Uri("https", true, host, 443, "/"))
  {
    hide Parsed, PlainHost;
    PortlessIsRead(Uri("ws", false, host, DefaultPort(false), "/"));
    PortlessIsRead(Uri("http", false, host, DefaultPort(false), "/"));
    PortlessIsRead(Uri("wss", true, host, DefaultPort(true), "/"));
    PortlessIsRead(Uri("https", true, host, DefaultPort(true), "/"));
    assert "ws" + "://" == "ws://" && "wss" + "://" == "wss://";
    assert "http" + "://" == "http://" && "https" + "://" == "https://";
  }

  lemma PortlessIsRead(u: Uri)
    requires KnownScheme(u) && PlainHost(u.host) && u.port == DefaultPort(u.secure) && u.resource == "/"
    ensures Parsed(u.scheme + "://" + u.host + "/") == Some(u)
  {
    hide Parsed, PlainHost, KnownScheme;
    UriRoundTrip(u);
    assert u.scheme + "://" + u.host + "" + "/" == u.scheme + "://" + u.host + "/";
  }

  lemma BracketsAreFound(s: string, at: nat, host: string, tail: string)
    requires at <= |s| && s[at..] == ("[" + host + "]") + tail && ']' !in host
    ensures at + |host| + 2 <= |s| && s[at + |host| + 2..] == tail
    ensures HostOf(s, at) == Delimited(host, s, at + |host| + 2)
  {
    hide Find, Delimited;
    var bracketed := "[" + host + "]";
    HostThenTail(s, at, bracketed, tail);
    assert s[at + 0] == '[';
    var end := at + 1 + |host|;
    assert s[at + (1 + |host|)] == bracketed[1 + |host|] == ']';
    forall k | at + 1 <= k < end ensures s[k] != ']' {
      assert s[at + (k - at)] == bracketed[k - at] == host[k - at - 1] && host[k - at - 1] in host;
    }
    FindIs(s, at + 1, {']'}, end);
    assert s[at + 1..end] == s[at..at + |bracketed|][1..|host| + 1] == host;
    assert s[end + 1..] == s[at..][|bracketed|..] == tail;
  }

  /** A host in brackets, such as an IPv6 address, is read without them. */
  lemma BracketedHostIsRead(u: Uri)
    requires WellFormed(u) && ']' !in u.host
    ensures Parsed(u.scheme + "://[" + u.host + "]" + Tail(u)) == Some(u)
  {
    hide Tail, Find, HostOf, SchemeOf, AfterHost, Delimited, KnownScheme;
    var rest := ("[" + u.host + "]") + Tail(u);
    var s, n := u.scheme + "://" + rest, |u.scheme| + 3;
    assert u.scheme + "://[" + u.host + "]" + Tail(u) == s;
    SchemeOfText(u, s, rest);
    assert s[n..] == rest;
    BracketsAreFound(s, n, u.host, Tail(u));
    TailRoundTrip(u, s, n + |u.host| + 2);
  }
}
