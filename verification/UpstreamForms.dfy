/** What `ParseUpstream` makes of every way of writing an upstream: `[net:]host[:port][/path][#commonname]`. */
module UpstreamForms {
  import opened Text
  import opened Wrappers
  import opened Upstream

  /** An upstream as a user writes it; parts that are not written are `None`. */
  datatype Written = Written(
    net: Option<Net>, slashes: bool, host: string, port: Option<nat>, path: string, name: Option<string>)

  function NetText(w: Written): string {
    match w.net
    case None => ""
    case Some(TcpUdp) => "tcp+udp:"
    case Some(TcpTls) => "tcp-tls:"
    case Some(Https) => if w.slashes then "https://" else "https:"
  }

  function AddressText(w: Written): string {
    (if ':' in w.host then "[" + w.host + "]" else w.host) + (if w.port.Some? then ":" + Format(w.port.value) else "")
  }

  function WrittenText(w: Written): string {
    NetText(w) + (AddressText(w) + w.path) + if w.name.Some? then "#" + w.name.value else ""
  }

  /** No part can be mistaken for a separator; a host that is called like a protocol needs one in front of its port. */
  predicate Readable(w: Written) {
    && w.host != "" && HostChars(w.host)
    && (w.path == "" || w.path[0] == '/') && '#' !in w.path
    && (w.net.None? && w.port.Some? ==> w.host != "tcp+udp" && w.host != "tcp-tls" && w.host != "https")
  }

  /** The port that is written, or that of the protocol: 53, 853 for TLS, 443 for HTTPS. */
  function WrittenPort(w: Written): nat {
    match w.port
    case Some(p) => p
    case None =>
      match w.net
      case None => 53
      case Some(TcpUdp) => 53
      case Some(TcpTls) => 853
      case Some(Https) => 443
  }

  /**
    Parsing returns exactly the parts that were written: TCP and UDP if no protocol is given, the port of
    the protocol if none is, the path with its slash, the common name without its '#'. Ports over 16
    bits are refused, and so are hosts that are neither an address nor a domain.
   */
  lemma WrittenParses(isIp: IpParser, w: Written)
    requires Readable(w)
    ensures ParseUpstream(isIp, WrittenText(w)) ==
      if w.port.Some? && w.port.value > 65535 then Err(BadPort)
      else if !isIp(w.host) && !ValidDomain(w.host) then Err(BadHost)
      else Ok(Upstream(if w.net.Some? then w.net.value else TcpUdp, w.host, WrittenPort(w), w.path,
                       if w.name.Some? then w.name.value else ""))
  {
    PartsAreCut(w);
    hide WrittenText, AddressText, NetText, ExtractNet, ExtractPath, ExtractCommonName, Readable;
    hide SplitHostPort, ConvertPort, Format, TrimPrefix, TrimSuffix, ValidDomain;
    AddressIsSplit(w);
    if w.port.Some? {
      WrittenPortConverts(w.port.value);
    }
  }

  /** Common name, protocol and path are cut off, and the address is left. */
  lemma PartsAreCut(w: Written)
    requires Readable(w)
    ensures var core := NetText(w) + (AddressText(w) + w.path);
      && ExtractCommonName(WrittenText(w)) == (if w.name.Some? then w.name.value else "", core)
      && ExtractNet(core) == (if w.net.Some? then w.net.value else TcpUdp, AddressText(w) + w.path)
      && ExtractPath(AddressText(w) + w.path) == (w.path, AddressText(w))
  {
    var body := AddressText(w) + w.path;
    AddressHasNoSeparator(w);
    assert WrittenText(w) == NetText(w) + body + if w.name.Some? then "#" + w.name.value else "";
    assert w.path == "" || w.path[0] == '/';
    hide AddressText, NetText, WrittenText, ExtractNet, ExtractPath, ExtractCommonName, Readable;
    NameIsCut(NetText(w) + body, w);
    NetIsCut(w, body);
    PathIsFound(AddressText(w), w.path);
  }

  lemma AddressHasNoSeparator(w: Written)
    requires Readable(w)
    ensures '/' !in AddressText(w) && '#' !in AddressText(w) && '#' !in NetText(w) + (AddressText(w) + w.path)
  {
    var host := if ':' in w.host then "[" + w.host + "]" else w.host;
    var port := if w.port.Some? then ":" + Format(w.port.value) else "";
    if w.port.Some? { FormatChars(w.port.value); }
    hide Format;
    NotInParts('/', host, port);
    NotInParts('#', host, port);
    NotInParts('#', AddressText(w), w.path);
    NotInParts('#', NetText(w), AddressText(w) + w.path);
  }

  lemma NameIsCut(core: string, w: Written)
    requires '#' !in core && WrittenText(w) == core + if w.name.Some? then "#" + w.name.value else ""
    ensures ExtractCommonName(WrittenText(w)) == (if w.name.Some? then w.name.value else "", core)
  {
    var s := WrittenText(w);
    hide WrittenText;
    if w.name.Some? {
      assert s[|core|] == '#' && s[..|core|] == core && s[|core| + 1..] == w.name.value;
      FirstIndexIs(s, '#', |core|);
    } else {
      assert s == core;
    }
  }

  lemma FirstIndexIs(s: string, c: char, i: nat)
    requires i < |s| && s[i] == c && c !in s[..i]
    ensures IndexOf(s, c) == i
  {
    hide IndexOf;
    var j := IndexOf(s, c);
    if j < i {
      NotAhead(s, c, i, j);
    } else if i < j {
      NotAhead(s, c, j, i);
    }
  }

  lemma NotAhead(s: string, c: char, i: nat, j: int)
    requires 0 <= j < i <= |s| && c !in s[..i]
    ensures s[j] != c
  {
    assert s[j] == s[..i][j];
  }

  lemma NetIsCut(w: Written, body: string)
    requires Readable(w) && body == AddressText(w) + w.path
    ensures ExtractNet(NetText(w) + body) == (if w.net.Some? then w.net.value else TcpUdp, body)
  {
    var s := NetText(w) + body;
    if w.net.None? {
      assert s == body;
      NoProtocol(w, body);
    } else if w.net == Some(Https) && !w.slashes {
      assert s[0] == 'h' && "tcp+udp:"[0] == 't' && "tcp-tls:"[0] == 't';
      assert s[..6] == "https:" && s[6..] == body;
      BodyStart(w, body);
    } else {
      NetIsFound(w.net.value, body);
      FrontIs(w, body);
      hide ExtractNet;
    }
  }

  lemma FrontIs(w: Written, body: string)
    requires w.net.Some? && (w.net == Some(Https) ==> w.slashes)
    ensures NetName(w.net.value) + ":" + (if w.net.value == Https then "//" else "") + body == NetText(w) + body
  {
    assert w.net == Some(Https) ==> "https" + ":" + "//" == "https://";
    assert w.net == Some(TcpUdp) ==> "tcp+udp" + ":" + "" == "tcp+udp:";
    assert w.net == Some(TcpTls) ==> "tcp-tls" + ":" + "" == "tcp-tls:";
  }

  lemma BodyStart(w: Written, body: string)
    requires Readable(w) && body == AddressText(w) + w.path
    ensures !HasPrefix(body, "//")
  {
    assert w.host[0] in w.host;
    assert body[0] != '/' == "//"[0];
  }

  /** Without a protocol the text does not start like one. */
  lemma NoProtocol(w: Written, body: string)
    requires Readable(w) && w.net.None? && body == AddressText(w) + w.path
    ensures !HasPrefix(body, "tcp+udp:") && !HasPrefix(body, "tcp-tls:") && !HasPrefix(body, "https:")
  {
    if ':' in w.host {
      assert body[0] == '[';
      assert "tcp+udp:"[0] == 't' && "tcp-tls:"[0] == 't' && "https:"[0] == 'h';
    } else {
      var rest := RestText(w);
      RestStart(w, body);
      assert "tcp+udp" + ":" == "tcp+udp:" && "tcp-tls" + ":" == "tcp-tls:" && "https" + ":" == "https:";
      hide AddressText, RestText;
      NotProtocol(w.host, rest, "tcp+udp");
      NotProtocol(w.host, rest, "tcp-tls");
      NotProtocol(w.host, rest, "https");
    }
  }

  /** What is written behind a host. */
  function RestText(w: Written): string {
    (if w.port.Some? then ":" + Format(w.port.value) else "") + w.path
  }

  lemma RestStart(w: Written, body: string)
    requires Readable(w) && ':' !in w.host && body == AddressText(w) + w.path
    ensures body == w.host + RestText(w)
    ensures RestText(w) == "" || RestText(w)[0] == '/' || (RestText(w)[0] == ':' && w.port.Some?)
  {
    hide Format;
    assert w.port.None? ==> RestText(w) == w.path;
  }

  lemma NotProtocol(host: string, rest: string, word: string)
    requires ':' !in host && '/' !in host && ':' !in word && '/' !in word
    requires rest == "" || rest[0] == '/' || (rest[0] == ':' && host != word)
    ensures !HasPrefix(host + rest, word + ":")
  {
    if HasPrefix(host + rest, word + ":") {
      WordAgrees(host, rest, word);
    }
  }

  /** A text that starts with a word and a colon has that word for a host and something behind the colon. */
  lemma WordAgrees(host: string, rest: string, word: string)
    requires HasPrefix(host + rest, word + ":")
    requires ':' !in host && '/' !in host && ':' !in word && '/' !in word
    requires rest == "" || rest[0] == ':' || rest[0] == '/'
    ensures host == word && rest != "" && rest[0] == ':'
  {
    var s := host + rest;
    assert s[..|word| + 1] == word + ":";
    assert s[|word|] == s[..|word| + 1][|word|] == ':';
    assert s[..|word|] == s[..|word| + 1][..|word|] == word && s[..|host|] == host;
    assert rest == "" ==> s == host;
    assert s[|word|] in s;
    assert rest != "" && s[|host|] == rest[0];
    SameSeparator(s, |word|, |host|);
  }

  /** A text has one first separator. */
  lemma SameSeparator(s: string, i: nat, j: nat)
    requires i < |s| && j < |s| && (s[i] == ':' || s[i] == '/') && (s[j] == ':' || s[j] == '/')
    requires ':' !in s[..i] && '/' !in s[..i] && ':' !in s[..j] && '/' !in s[..j]
    ensures i == j
  {
    if i < j {
      NotAhead(s, s[i], j, i);
    } else if j < i {
      NotAhead(s, s[j], i, j);
    }
  }

  lemma AddressIsSplit(w: Written)
    requires Readable(w)
    ensures if w.port.Some? then SplitHostPort(AddressText(w)) == Some((w.host, Format(w.port.value)))
            else SplitHostPort(AddressText(w)).None? && TrimSuffix(TrimPrefix(AddressText(w), "["), "]") == w.host
  {
    var h := if ':' in w.host then "[" + w.host + "]" else w.host;
    if w.port.None? {
      assert AddressText(w) == h + "" == h;
      if ':' in w.host { NoPortBracketed(w.host); } else { NoPortPlain(w.host); }
    } else {
      var p := Format(w.port.value);
      FormatChars(w.port.value);
      assert AddressText(w) == h + (":" + p) == h + ":" + p;
      hide Format, SplitHostPort;
      if ':' in w.host { SplitsBracketed(w.host, p); } else { SplitsPlain(w.host, p); }
    }
  }

  lemma WrittenPortConverts(p: nat)
    ensures ConvertPort(Format(p)) == if p <= 65535 then Some(p) else None
  {
    var s := Format(p);
    assert IsDigit(s[0]) && IsDigit(s[|s| - 1]);
    assert TrimSpace(s) == s;
    DigitsOfFormat(p);
  }

  // Domains.

  predicate IsLabel(s: string) {
    && s != "" && IsAlnum(s[0]) && IsAlnum(s[|s| - 1])
    && forall i :: 0 <= i < |s| ==> IsAlnum(s[i]) || s[i] == '-'
  }

  /** A domain is a label, or a domain, a dot and a label. */
  lemma DomainForm(front: string, last: string)
    requires '.' !in last
    ensures ValidDomain(last) <==> IsLabel(last)
    ensures ValidDomain(front + "." + last) <==> ValidDomain(front) && IsLabel(last)
  {
    assert forall i :: 0 <= i < |last| ==> last[i] != '.';
    var s, n := front + "." + last, |front|;
    assert forall i :: 0 <= i < n ==> s[i] == front[i];
    assert s[n] == '.';
    assert forall i :: 0 <= i < |last| ==> s[n + 1 + i] == last[i];
    if ValidDomain(s) {
      SplitDomain(front, last, s);
    }
    if ValidDomain(front) && IsLabel(last) {
      JoinDomain(front, last, s);
    }
  }

  lemma SplitDomain(front: string, last: string, s: string)
    requires s == front + "." + last && '.' !in last && ValidDomain(s)
    ensures ValidDomain(front) && IsLabel(last)
  {
    var n := |front|;
    assert s[n] == '.' && s[..n] == front && s[n + 1..] == last;
    assert n > 0 && last != "" by { assert s[0] != '.' && s[|s| - 1] != '.'; }
    assert IsAlnum(s[n - 1]) && IsAlnum(s[n + 1]);
    FrontIsDomain(front, last, s);
    LastIsLabel(front, last, s);
  }

  lemma FrontIsDomain(front: string, last: string, s: string)
    requires s == front + "." + last && ValidDomain(s) && front != "" && IsAlnum(front[|front| - 1])
    ensures ValidDomain(front)
  {
    assert forall i :: 0 <= i < |front| ==> s[i] == front[i];
  }

  lemma LastIsLabel(front: string, last: string, s: string)
    requires s == front + "." + last && ValidDomain(s) && '.' !in last && last != "" && IsAlnum(last[0])
    ensures IsLabel(last)
  {
    assert forall i :: 0 <= i < |last| ==> s[|front| + 1 + i] == last[i];
  }

  lemma JoinDomain(front: string, last: string, s: string)
    requires s == front + "." + last && ValidDomain(front) && IsLabel(last)
    ensures ValidDomain(s)
  {
    var n := |front|;
    assert s[n] == '.' && s[n - 1] == front[n - 1] && s[n + 1] == last[0];
    assert forall i :: 0 <= i < n ==> s[i] == front[i];
    assert forall i :: n < i < |s| ==> s[i] == last[i - n - 1];
  }
}
