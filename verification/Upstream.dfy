/** `config/upstream.go`: parsing and printing of upstream addresses. */
module Upstream {
  import opened Text
  import opened Wrappers

  datatype Net = TcpUdp | TcpTls | Https

  datatype Upstream = Upstream(net: Net, host: string, port: nat, path: string, commonName: string)

  datatype ParseError = BadPort | BadHost

  function NetName(n: Net): string {
    match n
    case TcpUdp => "tcp+udp"
    case TcpTls => "tcp-tls"
    case Https => "https"
  }

  function DefaultPort(n: Net): nat {
    match n
    case TcpUdp => 53
    case TcpTls => 853
    case Https => 443
  }

  // Numbers.

  predicate IsDigit(c: char) {
    '0' <= c <= '9'
  }

  /** `strconv.FormatUint(n, 10)`. */
  function Format(n: nat): (s: string)
    ensures s != "" && forall i :: 0 <= i < |s| ==> IsDigit(s[i])
  {
    if n < 10 then [('0' as int + n) as char] else Format(n / 10) + [('0' as int + n % 10) as char]
  }

  /** The value of a non-empty string of digits. */
  function Digits(s: string): Option<nat> {
    if s == "" then Some(0)
    else
      var last := s[|s| - 1];
      match Digits(s[..|s| - 1])
      case Some(v) => if IsDigit(last) then Some(v * 10 + (last as int - '0' as int)) else None
      case None => None
  }

  lemma {:induction false} DigitsOfFormat(n: nat)
    ensures Digits(Format(n)) == Some(n)
  {
    var s := Format(n);
    if n < 10 {
      assert s[..0] == "";
    } else {
      DigitsOfFormat(n / 10);
      assert s[..|s| - 1] == Format(n / 10);
    }
  }

  /** `ConvertPort`: spaces are trimmed, the value must fit in 16 bits. */
  function ConvertPort(s: string): Option<nat> {
    var t := TrimSpace(s);
    if t == "" then None
    else
      match Digits(t)
      case Some(v) => if v <= 65535 then Some(v) else None
      case None => None
  }

  lemma PortRoundTrip(p: nat)
    requires p <= 65535
    ensures ConvertPort(Format(p)) == Some(p)
  {
    var s := Format(p);
    assert IsDigit(s[0]) && IsDigit(s[|s| - 1]);
    assert TrimSpace(s) == s;
    DigitsOfFormat(p);
  }

  // Host and port.

  /** `net.SplitHostPort`; `None` stands for any of its errors. */
  function SplitHostPort(s: string): Option<(string, string)> {
    var i := LastIndexOf(s, ':');
    if i < 0 then None
    else if s[0] == '[' then
      var end := IndexOf(s, ']');
      if end < 0 || end + 1 != i then None
      else if '[' in s[1..] || ']' in s[end + 1..] then None
      else Some((s[1..end], s[i + 1..]))
    else if ':' in s[..i] || '[' in s || ']' in s then None
    else Some((s[..i], s[i + 1..]))
  }

  predicate IsAlnum(c: char) {
    'a' <= c <= 'z' || 'A' <= c <= 'Z' || IsDigit(c)
  }

  /** The regular expression `validDomain`: labels of letters, digits and inner hyphens, joined by dots. */
  predicate ValidDomain(s: string) {
    && s != "" && IsAlnum(s[0]) && IsAlnum(s[|s| - 1])
    && (forall i :: 0 <= i < |s| ==> IsAlnum(s[i]) || s[i] == '-' || s[i] == '.')
    && (forall i :: 0 < i < |s| - 1 && s[i] == '.' ==> IsAlnum(s[i - 1]) && IsAlnum(s[i + 1]))
  }

  /** `net.ParseIP`, known only to accept nothing but hexadecimal digits, colons and dots. */
  type IpParser = string -> bool

  ghost predicate AcceptsIpText(isIp: IpParser) {
    forall s :: isIp(s) ==> s != "" && forall c :: c in s ==> IsAlnum(c) || c == ':' || c == '.'
  }

  predicate ValidHost(isIp: IpParser, host: string) {
    isIp(host) || ValidDomain(host)
  }

  // The parser.

  /** `extractCommonName`: (common name, rest). */
  function ExtractCommonName(s: string): (string, string) {
    var i := IndexOf(s, '#');
    if i < 0 then ("", s) else (s[i + 1..], s[..i])
  }

  function ExtractNet(s: string): (Net, string) {
    if HasPrefix(s, "tcp+udp:") then (TcpUdp, s[8..])
    else if HasPrefix(s, "tcp-tls:") then (TcpTls, s[8..])
    else if HasPrefix(s, "https:") then (Https, TrimPrefix(s[6..], "//"))
    else (TcpUdp, s)
  }

  /** `extractPath`: (path, rest). */
  function ExtractPath(s: string): (string, string) {
    var i := IndexOf(s, '/');
    if i >= 0 then (s[i..], s[..i]) else ("", s)
  }

  function ParseUpstream(isIp: IpParser, s: string): Result<Upstream, ParseError> {
    var (commonName, s1) := ExtractCommonName(s);
    var (net, s2) := ExtractNet(s1);
    var (path, s3) := ExtractPath(s2);
    match SplitHostPort(s3)
    case Some((host, portText)) =>
      (match ConvertPort(portText)
       case None => Err(BadPort)
       case Some(port) =>
         if ValidHost(isIp, host) then Ok(Upstream(net, host, port, path, commonName)) else Err(BadHost))
    case None =>
      var host := TrimSuffix(TrimPrefix(s3, "["), "]");
      if ValidHost(isIp, host) then Ok(Upstream(net, host, DefaultPort(net), path, commonName)) else Err(BadHost)
  }

  // The printer.

  function HostPart(u: Upstream): string {
    if ':' in u.host then "[" + u.host + "]" else u.host
  }

  function PortPart(u: Upstream): string {
    if u.port != DefaultPort(u.net) then ":" + Format(u.port) else ""
  }

  function ToString(u: Upstream): string {
    if u == Upstream(TcpUdp, "", 0, "", "") then "no upstream"
    else NetName(u.net) + ":" + (if u.net == Https then "//" else "") + HostPart(u) + PortPart(u) + u.path
  }

  /** What every parsed upstream satisfies: nothing in it can be mistaken for a separator. */
  ghost predicate WellFormed(isIp: IpParser, u: Upstream) {
    && ValidHost(isIp, u.host) && u.port <= 65535
    && (u.path == "" || u.path[0] == '/') && '#' !in u.path
  }

  lemma ParsedIsWellFormed(isIp: IpParser, s: string)
    requires ParseUpstream(isIp, s).Ok?
    ensures WellFormed(isIp, ParseUpstream(isIp, s).value)
  {
    var s1 := ExtractCommonName(s).1;
    var s2 := ExtractNet(s1).1;
    NoHashInNetRest(s1);
    PathShape(s2);
  }

  lemma NoHashInSuffix(s: string, k: nat)
    requires k <= |s| && '#' !in s
    ensures '#' !in s[k..]
  {
  }

  lemma NoHashInNetRest(s: string)
    requires '#' !in s
    ensures '#' !in ExtractNet(s).1
  {
    if |s| >= 8 {
      NoHashInSuffix(s, 8);
    }
    if |s| >= 6 {
      NoHashInSuffix(s, 6);
      if HasPrefix(s[6..], "//") {
        NoHashInSuffix(s[6..], 2);
      }
    }
  }

  lemma PathShape(s: string)
    requires '#' !in s
    ensures var path := ExtractPath(s).0; (path == "" || path[0] == '/') && '#' !in path
  {
    var i := IndexOf(s, '/');
    if i >= 0 {
      NoHashInSuffix(s, i);
    }
  }

  /** Characters of a host: none of them separates the parts of an upstream. */
  predicate HostChars(s: string) {
    forall c :: c in s ==> c != '[' && c != ']' && c != '/' && c != '#'
  }

  lemma HostsAreSafe(isIp: IpParser, host: string)
    requires AcceptsIpText(isIp) && ValidHost(isIp, host)
    ensures host != "" && HostChars(host)
  {
  }

  lemma FormatChars(n: nat)
    ensures HostChars(Format(n)) && ':' !in Format(n)
  {
    var s := Format(n);
    forall c | c in s ensures IsDigit(c) {
      var i :| 0 <= i < |s| && s[i] == c;
    }
  }

  /** The address part of a printed upstream, without its path. */
  function Address(u: Upstream): string {
    HostPart(u) + PortPart(u)
  }

  lemma AddressChars(u: Upstream)
    requires HostChars(u.host)
    ensures '/' !in Address(u) && '#' !in Address(u)
  {
    FormatChars(u.port);
  }

  lemma NoCommonName(s: string)
    requires '#' !in s
    ensures ExtractCommonName(s) == ("", s)
  {
  }

  lemma PathIsFound(core: string, path: string)
    requires '/' !in core && (path == "" || path[0] == '/')
    ensures ExtractPath(core + path) == (path, core)
  {
    var s := core + path;
    var i := IndexOf(s, '/');
    if path == "" {
      assert s == core;
    } else {
      assert s[|core|] == '/';
      assert forall j :: 0 <= j < |core| ==> s[j] == core[j];
      assert s[i..] == path && s[..i] == core;
    }
  }

  lemma NetIsFound(n: Net, body: string)
    ensures ExtractNet(NetName(n) + ":" + (if n == Https then "//" else "") + body) == (n, body)
  {
    var s := NetName(n) + ":" + (if n == Https then "//" else "") + body;
    match n
    case TcpUdp =>
      assert s[..8] == "tcp+udp:" && s[8..] == body;
    case TcpTls =>
      assert s[3] == '-' && "tcp+udp:"[3] == '+';
      assert s[..8] == "tcp-tls:" && s[8..] == body;
    case Https =>
      assert s[0] == 'h' && "tcp+udp:"[0] == 't' && "tcp-tls:"[0] == 't';
      assert s[..6] == "https:" && s[6..] == "//" + body;
      assert ("//" + body)[2..] == body;
  }

  lemma LastColon(a: string, b: string)
    requires ':' !in b
    ensures LastIndexOf(a + ":" + b, ':') == |a|
  {
    var s := a + ":" + b;
    assert s[|a|] == ':' && s[|a| + 1..] == b;
    LastIndexIs(s, ':', |a|);
  }

  lemma FirstBracket(host: string, rest: string)
    requires ']' !in host
    ensures IndexOf("[" + host + "]" + rest, ']') == |host| + 1
  {
    var s := "[" + host + "]" + rest;
    assert s[|host| + 1] == ']' && s[0] == '[';
    assert forall j :: 1 <= j <= |host| ==> s[j] == host[j - 1];
    var i := IndexOf(s, ']');
    assert forall j :: 0 <= j < i ==> s[..i][j] == s[j];
  }

  lemma NotInParts(c: char, a: string, b: string)
    requires c !in a && c !in b
    ensures c !in a + b
  {
  }

  lemma SplitsPlain(host: string, port: string)
    requires HostChars(host) && ':' !in host && host != "" && HostChars(port) && ':' !in port
    ensures SplitHostPort(host + ":" + port) == Some((host, port))
  {
    var s := host + ":" + port;
    LastColon(host, port);
    assert s[..|host|] == host && s[|host| + 1..] == port;
    assert '[' !in s && ']' !in s by {
      NotInParts('[', host, ":");
      NotInParts(']', host, ":");
      NotInParts('[', host + ":", port);
      NotInParts(']', host + ":", port);
    }
    assert s[0] in s;
  }

  lemma SplitsBracketed(host: string, port: string)
    requires HostChars(host) && HostChars(port) && ':' !in port
    ensures SplitHostPort("[" + host + "]" + ":" + port) == Some((host, port))
  {
    var s := "[" + host + "]" + ":" + port;
    LastColon("[" + host + "]", port);
    BracketIndex(host, port);
    BracketedParts(host, port);
    BracketedRest(host, port);
  }

  lemma BracketIndex(host: string, port: string)
    requires ']' !in host
    ensures IndexOf("[" + host + "]" + ":" + port, ']') == |host| + 1
  {
    assert "[" + host + "]" + ":" + port == "[" + host + "]" + (":" + port);
    FirstBracket(host, ":" + port);
  }

  lemma BracketedParts(host: string, port: string)
    ensures var s := "[" + host + "]" + ":" + port;
      s[0] == '[' && s[1..|host| + 1] == host && s[|host| + 3..] == port && s[|host| + 2..] == ":" + port
  {
  }

  lemma BracketedRest(host: string, port: string)
    requires HostChars(host) && HostChars(port)
    ensures var s := "[" + host + "]" + ":" + port; '[' !in s[1..] && ']' !in s[|host| + 2..]
  {
    var s := "[" + host + "]" + ":" + port;
    NotInParts('[', "]:", port);
    NotInParts('[', host, "]:" + port);
    assert s[1..] == host + ("]:" + port);
    NotInParts(']', ":", port);
    BracketedParts(host, port);
  }

  lemma NoPortPlain(host: string)
    requires HostChars(host) && host != "" && ':' !in host
    ensures SplitHostPort(host).None? && TrimSuffix(TrimPrefix(host, "["), "]") == host
  {
    assert host[0] in host && host[|host| - 1] in host;
    assert host[..1] == [host[0]] && host[|host| - 1..] == [host[|host| - 1]];
  }

  lemma NoPortBracketed(host: string)
    requires HostChars(host) && ':' in host
    ensures SplitHostPort("[" + host + "]").None? && TrimSuffix(TrimPrefix("[" + host + "]", "["), "]") == host
  {
    BracketsEndIt(host);
    BracketsAreTrimmed(host);
  }

  lemma BracketsEndIt(host: string)
    requires ']' !in host
    ensures SplitHostPort("[" + host + "]").None?
  {
    var s := "[" + host + "]";
    assert IndexOf(s, ']') == |s| - 1 by {
      FirstBracket(host, "");
      assert s + "" == s;
    }
    assert s[0] == '[';
  }

  lemma BracketsAreTrimmed(host: string)
    ensures TrimSuffix(TrimPrefix("[" + host + "]", "["), "]") == host
  {
    var s := "[" + host + "]";
    assert s[..1] == "[" && s[1..] == host + "]";
    var t := host + "]";
    assert t[|host|..] == "]" && t[..|host|] == host;
  }

  lemma AddressParses(isIp: IpParser, u: Upstream)
    requires WellFormed(isIp, u) && HostChars(u.host) && u.host != ""
    ensures if u.port == DefaultPort(u.net)
            then SplitHostPort(Address(u)).None? && TrimSuffix(TrimPrefix(Address(u), "["), "]") == u.host
            else SplitHostPort(Address(u)) == Some((u.host, Format(u.port)))
  {
    var h := HostPart(u);
    if u.port == DefaultPort(u.net) {
      assert Address(u) == h + "" == h;
      if ':' in u.host {
        NoPortBracketed(u.host);
      } else {
        NoPortPlain(u.host);
      }
    } else {
      var p := Format(u.port);
      FormatChars(u.port);
      assert Address(u) == h + (":" + p) == h + ":" + p;
      if ':' in u.host {
        SplitsBracketed(u.host, p);
      } else {
        SplitsPlain(u.host, p);
      }
    }
  }

  /** Printing a well-formed upstream and parsing the text gives it back, without its common name. */
  lemma PrintedParses(isIp: IpParser, u: Upstream)
    requires AcceptsIpText(isIp) && WellFormed(isIp, u)
    ensures ParseUpstream(isIp, ToString(u)) == Ok(u.(commonName := ""))
  {
    HostsAreSafe(isIp, u.host);
    AddressChars(u);
    var address := Address(u);
    var body := address + u.path;
    PrintedForm(u);
    NoCommonName(ToString(u));
    NetIsFound(u.net, body);
    PathIsFound(address, u.path);
    AddressParses(isIp, u);
    if u.port != DefaultPort(u.net) {
      PortRoundTrip(u.port);
    }
  }

  lemma PrintedForm(u: Upstream)
    requires u.host != "" && '#' !in Address(u) && '#' !in u.path
    ensures ToString(u) == NetName(u.net) + ":" + (if u.net == Https then "//" else "") + (Address(u) + u.path)
    ensures '#' !in ToString(u)
  {
    var front := NetName(u.net) + ":" + (if u.net == Https then "//" else "");
    assert front + HostPart(u) + PortPart(u) + u.path == front + (HostPart(u) + PortPart(u) + u.path);
    NotInParts('#', Address(u), u.path);
    NotInParts('#', front, Address(u) + u.path);
  }

  /** Every accepted text: the upstream it denotes prints to a text that denotes the same upstream. */
  lemma ParsePrintParse(isIp: IpParser, s: string)
    requires AcceptsIpText(isIp) && ParseUpstream(isIp, s).Ok?
    ensures var u := ParseUpstream(isIp, s).value;
      ParseUpstream(isIp, ToString(u)) == Ok(u.(commonName := ""))
  {
    ParsedIsWellFormed(isIp, s);
    PrintedParses(isIp, ParseUpstream(isIp, s).value);
  }
}
