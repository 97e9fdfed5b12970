/** Host and port out of a connection string: the authority is what follows the last `@`, and userinfo is never read. */
module Endpoint {
  import opened Common

  predicate IsAlpha(c: char) {
    'A' <= c <= 'Z' || 'a' <= c <= 'z'
  }

  predicate SchemeChar(c: char) {
    IsAlpha(c) || IsDigit(c) || c == '+' || c == '.' || c == '-'
  }

  predicate HostChar(c: char) {
    IsAlpha(c) || IsDigit(c) || c == '.' || c == '_' || c == '-'
  }

  predicate AddressChar(c: char) {
    IsDigit(c) || 'A' <= c <= 'F' || 'a' <= c <= 'f' || c == ':' || c == '.'
  }

  predicate EndsAuthority(c: char) {
    c == '/' || c == '?' || c == '#'
  }

  predicate IsScheme(s: string) {
    s != [] && IsAlpha(s[0]) && forall c :: c in s ==> SchemeChar(c)
  }

  /** A bracketed address, or a name. */
  predicate IsHost(h: string) {
    || (|h| > 2 && h[0] == '[' && h[|h| - 1] == ']' && forall i :: 1 <= i < |h| - 1 ==> AddressChar(h[i]))
    || (h != [] && forall c :: c in h ==> HostChar(c))
  }

  predicate IsDigits(s: string) {
    s != [] && forall i :: 0 <= i < |s| ==> IsDigit(s[i])
  }

  // ----- the pieces of the parse -----

  function SchemeRun(s: string): (n: nat)
    ensures n <= |s| && (forall i :: 0 <= i < n ==> SchemeChar(s[i])) && (n < |s| ==> !SchemeChar(s[n]))
  {
    if s == [] || !SchemeChar(s[0]) then 0 else 1 + SchemeRun(s[1..])
  }

  function HostRun(s: string): (n: nat)
    ensures n <= |s| && (forall i :: 0 <= i < n ==> HostChar(s[i])) && (n < |s| ==> !HostChar(s[n]))
  {
    if s == [] || !HostChar(s[0]) then 0 else 1 + HostRun(s[1..])
  }

  /** The length of the scheme, if the text starts with one and "://". */
  function SchemeLength(s: string): Option<nat> {
    var n := SchemeRun(s);
    if n > 0 && IsAlpha(s[0]) && n + 3 <= |s| && s[n..n + 3] == "://" then Some(n) else None
  }

  /** s.rfind(c) */
  function RFind(s: string, c: char): (r: Option<nat>)
    ensures r.None? <==> c !in s
    ensures r.Some? ==> r.value < |s| && s[r.value] == c && forall i :: r.value < i < |s| ==> s[i] != c
  {
    if s == [] then None
    else if s[|s| - 1] == c then Some(|s| - 1)
    else
      assert s == s[..|s| - 1] + [s[|s| - 1]];
      RFind(s[..|s| - 1], c)
  }

  function AuthorityEnd(s: string): (n: nat)
    ensures n <= |s| && (forall i :: 0 <= i < n ==> !EndsAuthority(s[i])) && (n < |s| ==> EndsAuthority(s[n]))
  {
    if s == [] || EndsAuthority(s[0]) then 0 else 1 + AuthorityEnd(s[1..])
  }

  datatype HostPort = HostPort(host: string, port: Option<string>)

  function PortOf(s: string): Option<Option<string>> {
    if s == [] then Some(None) else if s[0] == ':' && IsDigits(s[1..]) then Some(Some(s[1..])) else None
  }

  /** How much of the text the host takes, nothing if there is none. */
  function HostLength(t: string): (n: nat)
    ensures n <= |t|
  {
    if t != [] && t[0] == '[' then
      var k := IndexOf(t, ']');
      if k < |t| && IsHost(t[..k + 1]) then k + 1 else 0
    else HostRun(t)
  }

  /** host[:port], with the `$` of the pattern also standing before one final newline. */
  function ParseHostPort(text: string): Option<HostPort> {
    var t := DollarTrim(text);
    var n := HostLength(t);
    if n == 0 then None
    else
      match PortOf(t[n..])
      case None => None
      case Some(port) => Some(HostPort(t[..n], port))
  }

  function Lower(s: string): string {
    seq(|s|, i requires 0 <= i < |s| => if 'A' <= s[i] <= 'Z' then (s[i] as int + 32) as char else s[i])
  }

  const DEFAULT_PORTS: map<string, nat> := map[
    "postgresql" := 5432, "postgres" := 5432, "mysql" := 3306, "starrocks" := 9030,
    "clickhouse" := 8123, "grpc" := 443, "grpc+tls" := 443, "http" := 80, "https" := 443]

  function DefaultPort(scheme: string): nat {
    if Lower(scheme) in DEFAULT_PORTS then DEFAULT_PORTS[Lower(scheme)] else 0
  }

  function PortNumber(scheme: string, port: Option<string>): nat {
    if port.Some? && IsDigits(port.value) then ParseNat(port.value) else DefaultPort(scheme)
  }

  /** What is parsed once the scheme is off. */
  function ParseRest(scheme: string, rest: string): Option<(string, nat)> {
    match RFind(rest, '@')
    case None => ParseAuthority(scheme, rest)
    case Some(at) =>
      if exists c :: c in rest[..at] && EndsAuthority(c) then None
      else ParseAuthority(scheme, rest[at + 1..])
  }

  function ParseAuthority(scheme: string, rest: string): Option<(string, nat)> {
    match ParseHostPort(rest[..AuthorityEnd(rest)])
    case None => None
    case Some(hp) => Some((hp.host, PortNumber(scheme, hp.port)))
  }

  function ParseText(text: string): Option<(string, nat)> {
    match SchemeLength(text)
    case None => None
    case Some(n) => ParseRest(text[..n], text[n + 3..])
  }

  /** `parse_endpoint`. */
  function ParseEndpoint(dsn: string): Option<(string, nat)> {
    ParseText(Strip(dsn))
  }

  // ----- stripping leaves the front alone -----

  lemma SchemeIsFound(scheme: string, rest: string)
    requires IsScheme(scheme)
    ensures SchemeLength(scheme + "://" + rest) == Some(|scheme|)
    ensures (scheme + "://" + rest)[..|scheme|] == scheme && (scheme + "://" + rest)[|scheme| + 3..] == rest
  {
    var s := scheme + "://" + rest;
    var n := SchemeRun(s);
    assert s[|scheme|] == ':';
    assert forall i :: 0 <= i < |scheme| ==> s[i] == scheme[i] && scheme[i] in scheme;
    assert n == |scheme|;
    assert s[n..n + 3] == "://";
  }

  lemma {:induction false} RStripKeepsFront(front: string, s: string)
    requires front != [] && !IsSpace(front[|front| - 1])
    ensures RStrip(front + s) == front + RStrip(s)
  {
    if s == [] {
      assert front + s == front;
    } else {
      var t := front + s;
      assert t[|t| - 1] == s[|s| - 1] && t[..|t| - 1] == front + s[..|s| - 1];
      RStripKeepsFront(front, s[..|s| - 1]);
    }
  }

  lemma {:induction false} StripKeepsScheme(scheme: string, rest: string)
    requires IsScheme(scheme)
    ensures Strip(scheme + "://" + rest) == scheme + "://" + RStrip(rest)
  {
    var s := scheme + "://" + rest;
    assert s[0] == scheme[0] && !IsSpace(s[0]);
    RStripKeepsFront(scheme + "://", rest);
  }

  lemma {:induction false} ParseIsOfRest(scheme: string, rest: string)
    requires IsScheme(scheme)
    ensures ParseEndpoint(scheme + "://" + rest) == ParseRest(scheme, RStrip(rest))
  {
    StripKeepsScheme(scheme, rest);
    SchemeIsFound(scheme, RStrip(rest));
  }

  lemma {:induction false} RStripIsPrefix(s: string)
    ensures RStrip(s) <= s
  {
    if s != [] && IsSpace(s[|s| - 1]) {
      RStripIsPrefix(s[..|s| - 1]);
    }
  }

  lemma NoneInPrefix(s: string, p: string, c: char)
    requires p <= s && c !in s
    ensures c !in p
  {
    assert forall i :: 0 <= i < |p| ==> p[i] == s[i];
  }

  // ----- userinfo has no say -----

  lemma {:induction false} RFindIs(u: string, r: string)
    requires '@' !in r
    ensures RFind(u + "@" + r, '@') == Some(|u|)
    ensures (u + "@" + r)[..|u|] == u && (u + "@" + r)[|u| + 1..] == r
  {
    var s := u + "@" + r;
    assert s[|u|] == '@';
    assert s[|u| + 1..] == r;
    assert forall i :: |u| < i < |s| ==> s[i] == r[i - |u| - 1];
  }

  /**
   Userinfo is never in scope: with a `/`, `?` or `#` in front of the last `@` the text is refused, and otherwise
   the answer is the one without any userinfo, whatever it holds, further `@`s included.
   */
  lemma UserinfoExactly(scheme: string, userinfo: string, rest: string)
    requires IsScheme(scheme) && '@' !in rest
    ensures ParseEndpoint(scheme + "://" + (userinfo + "@" + rest))
            == if exists c :: c in userinfo && EndsAuthority(c) then None else ParseEndpoint(scheme + "://" + rest)
  {
    ParseIsOfRest(scheme, userinfo + "@" + rest);
    ParseIsOfRest(scheme, rest);
    RStripKeepsFront(userinfo + "@", rest);
    RStripIsPrefix(rest);
    NoneInPrefix(rest, RStrip(rest), '@');
    RFindIs(userinfo, RStrip(rest));
  }

  // ----- a written endpoint reads back -----

  function PortPart(port: Option<string>): string {
    if port.None? then "" else ":" + port.value
  }

  predicate PortOk(port: Option<string>) {
    port.Some? ==> IsDigits(port.value)
  }

  lemma HostHasNoDelimiter(h: string)
    requires IsHost(h)
    ensures forall i :: 0 <= i < |h| ==> !EndsAuthority(h[i]) && h[i] != '@' && h[i] != '\n' && !IsSpace(h[i])
  {
    forall i | 0 <= i < |h|
      ensures !EndsAuthority(h[i]) && h[i] != '@' && h[i] != '\n' && !IsSpace(h[i])
    {
      assert h[i] in h;
    }
  }

  lemma PortPartParses(port: Option<string>)
    requires PortOk(port)
    ensures PortOf(PortPart(port)) == Some(port)
    ensures forall i :: 0 <= i < |PortPart(port)| ==> PortPart(port)[i] == ':' || IsDigit(PortPart(port)[i])
  {
    if port.Some? {
      assert (":" + port.value)[1..] == port.value;
    }
  }

  lemma BracketIsFound(host: string, rest: string)
    requires IsHost(host) && host[0] == '['
    ensures HostLength(host + rest) == |host|
  {
    var t := host + rest;
    assert host[0] in host && !HostChar('[');
    assert forall i :: 0 <= i < |host| ==> t[i] == host[i];
    assert t[..|host|] == host;
  }

  lemma NameIsFound(host: string, rest: string)
    requires IsHost(host) && host[0] != '[' && (rest == "" || rest[0] == ':')
    ensures HostLength(host + rest) == |host|
  {
    var t := host + rest;
    assert forall i :: 0 <= i < |host| ==> t[i] == host[i] && host[i] in host;
    assert rest != "" ==> t[|host|] == ':';
  }

  /** A host, and a port or nothing, is read back as such. */
  lemma HostPortParses(host: string, port: Option<string>, newline: string)
    requires IsHost(host) && PortOk(port) && (newline == "" || newline == "\n")
    ensures ParseHostPort(host + PortPart(port) + newline) == Some(HostPort(host, port))
  {
    var t := host + PortPart(port);
    HostHasNoDelimiter(host);
    PortPartParses(port);
    assert t[|t| - 1] != '\n';
    DollarTrimIs(t, newline);
    assert t[|host|..] == PortPart(port) && t[..|host|] == host;
    if host[0] == '[' {
      BracketIsFound(host, PortPart(port));
    } else {
      NameIsFound(host, PortPart(port));
    }
  }

  lemma DollarTrimIs(t: string, newline: string)
    requires t != [] && t[|t| - 1] != '\n' && (newline == "" || newline == "\n")
    ensures DollarTrim(t + newline) == t
  {
    assert t + "" == t;
    assert (t + "\n")[..|t|] == t;
  }

  /** A path, a query, a fragment or nothing. */
  predicate IsTail(tail: string) {
    tail == [] || EndsAuthority(tail[0])
  }

  lemma {:induction false} AuthorityEndIs(front: string, tail: string)
    requires IsTail(tail) && forall i :: 0 <= i < |front| ==> !EndsAuthority(front[i])
    ensures AuthorityEnd(front + tail) == |front| && (front + tail)[..|front|] == front
  {
    var s := front + tail;
    assert forall i :: 0 <= i < |front| ==> s[i] == front[i];
    assert tail != [] ==> s[|front|] == tail[0];
  }

  lemma NotInConcat(a: string, b: string, c: char)
    requires c !in a && c !in b
    ensures c !in a + b
  {
  }

  lemma FrontHasNoDelimiter(host: string, port: Option<string>, newline: string)
    requires IsHost(host) && PortOk(port) && (newline == "" || newline == "\n")
    ensures var front := host + PortPart(port) + newline;
            forall i :: 0 <= i < |front| ==> !EndsAuthority(front[i]) && front[i] != '@'
  {
    var front := host + PortPart(port) + newline;
    HostHasNoDelimiter(host);
    PortPartParses(port);
    forall i | 0 <= i < |front|
      ensures !EndsAuthority(front[i]) && front[i] != '@'
    {
      if i < |host| {
        assert front[i] == host[i];
      } else if i < |host| + |PortPart(port)| {
        assert front[i] == PortPart(port)[i - |host|];
      }
    }
  }

  /** What a well-formed authority reads as, with or without the stray newline the pattern lets through. */
  lemma AuthorityParses(scheme: string, host: string, port: Option<string>, newline: string, tail: string)
    requires IsHost(host) && PortOk(port) && IsTail(tail) && '@' !in tail && (newline == "" || newline == "\n")
    ensures var rest := host + PortPart(port) + newline + tail;
            '@' !in rest && ParseAuthority(scheme, rest) == Some((host, PortNumber(scheme, port)))
  {
    var front := host + PortPart(port) + newline;
    FrontHasNoDelimiter(host, port, newline);
    NotInConcat(front, tail, '@');
    AuthorityEndIs(front, tail);
    HostPortParses(host, port, newline);
  }

  // ----- exactly what is accepted -----

  /** The parts of an endpoint's text, a newline between authority and tail included. */
  datatype Parts = Parts(scheme: string, userinfo: Option<string>, host: string, port: Option<string>,
                         newline: string, tail: string)

  function AfterUserinfo(p: Parts): string {
    p.host + PortPart(p.port) + p.newline + p.tail
  }

  function Written(p: Parts): string {
    p.scheme + "://" + ((if p.userinfo.None? then "" else p.userinfo.value + "@") + AfterUserinfo(p))
  }

  /**
   scheme "://" [userinfo "@"] host [":" digits] [newline] [tail], where userinfo holds none of the three characters
   that end an authority, the tail begins with one, and no `@` comes after the userinfo's own.
   */
  predicate PartsOk(p: Parts) {
    && IsScheme(p.scheme) && IsHost(p.host) && PortOk(p.port)
    && (p.userinfo.Some? ==> forall c :: c in p.userinfo.value ==> !EndsAuthority(c))
    && (p.newline == "" || p.newline == "\n")
    && IsTail(p.tail) && '@' !in p.tail
  }

  lemma RestParses(p: Parts)
    requires PartsOk(p)
    ensures ParseRest(p.scheme, (if p.userinfo.None? then "" else p.userinfo.value + "@") + AfterUserinfo(p))
            == Some((p.host, PortNumber(p.scheme, p.port)))
  {
    var rest := AfterUserinfo(p);
    AuthorityParses(p.scheme, p.host, p.port, p.newline, p.tail);
    if p.userinfo.None? {
      assert "" + rest == rest;
    } else {
      RFindIs(p.userinfo.value, rest);
    }
  }

  lemma TextOfScheme(scheme: string, rest: string)
    requires IsScheme(scheme)
    ensures ParseText(scheme + "://" + rest) == ParseRest(scheme, rest)
  {
    SchemeIsFound(scheme, rest);
  }

  lemma WrittenParses(p: Parts)
    requires PartsOk(p)
    ensures ParseText(Written(p)) == Some((p.host, PortNumber(p.scheme, p.port)))
  {
    RestParses(p);
    TextOfScheme(p.scheme, (if p.userinfo.None? then "" else p.userinfo.value + "@") + AfterUserinfo(p));
  }

  lemma AcceptedHost(d: string)
    requires HostLength(d) > 0
    ensures IsHost(d[..HostLength(d)])
  {
    var n := HostLength(d);
    if d[0] != '[' {
      assert forall c :: c in d[..n] ==> HostChar(c);
    }
  }

  lemma AcceptedHostPort(t: string) returns (newline: string)
    requires ParseHostPort(t).Some?
    ensures var hp := ParseHostPort(t).value;
            IsHost(hp.host) && PortOk(hp.port) && t == hp.host + PortPart(hp.port) + newline
    ensures newline == "" || newline == "\n"
  {
    var d, hp := DollarTrim(t), ParseHostPort(t).value;
    var n := HostLength(d);
    AcceptedHost(d);
    assert d[n..] == PortPart(hp.port) by {
      if hp.port.Some? {
        assert d[n..] == [d[n..][0]] + d[n..][1..];
      }
    }
    assert d == hp.host + PortPart(hp.port);
    newline := if t == d then "" else "\n";
    assert d + "" == d;
  }

  lemma AcceptedAuthority(scheme: string, authority: string)
    returns (port: Option<string>, newline: string, tail: string)
    requires ParseAuthority(scheme, authority).Some?
    ensures var (host, number) := ParseAuthority(scheme, authority).value;
            && IsHost(host) && PortOk(port) && number == PortNumber(scheme, port)
            && authority == host + PortPart(port) + newline + tail
    ensures (newline == "" || newline == "\n") && IsTail(tail)
  {
    var cut := AuthorityEnd(authority);
    newline := AcceptedHostPort(authority[..cut]);
    port := ParseHostPort(authority[..cut]).value.port;
    tail := authority[cut..];
    AuthorityCuts(authority);
  }

  /** What follows the authority is nothing, or begins with a character that ends one. */
  lemma {:induction false} AuthorityCuts(authority: string)
    ensures var cut := AuthorityEnd(authority);
            authority == authority[..cut] + authority[cut..] && IsTail(authority[cut..])
  {
  }

  lemma TailHasNoAt(front: string, tail: string)
    requires '@' !in front + tail
    ensures '@' !in tail
  {
    forall i | 0 <= i < |tail|
      ensures tail[i] != '@'
    {
      assert tail[i] == (front + tail)[|front| + i];
    }
  }

  /** An accepted authority, put together with the userinfo that stood before it. */
  lemma AcceptedAfter(scheme: string, userinfo: Option<string>, authority: string) returns (p: Parts)
    requires IsScheme(scheme) && '@' !in authority && ParseAuthority(scheme, authority).Some?
    requires userinfo.Some? ==> forall c :: c in userinfo.value ==> !EndsAuthority(c)
    ensures PartsOk(p) && p.scheme == scheme && p.userinfo == userinfo && AfterUserinfo(p) == authority
    ensures ParseAuthority(scheme, authority).value == (p.host, PortNumber(scheme, p.port))
  {
    var host := ParseAuthority(scheme, authority).value.0;
    var port, newline, tail := AcceptedAuthority(scheme, authority);
    TailHasNoAt(host + PortPart(port) + newline, tail);
    p := Parts(scheme, userinfo, host, port, newline, tail);
  }

  lemma AcceptedRest(scheme: string, rest: string) returns (p: Parts)
    requires IsScheme(scheme) && ParseRest(scheme, rest).Some?
    ensures PartsOk(p) && p.scheme == scheme
    ensures rest == (if p.userinfo.None? then "" else p.userinfo.value + "@") + AfterUserinfo(p)
    ensures ParseRest(scheme, rest).value == (p.host, PortNumber(scheme, p.port))
  {
    match RFind(rest, '@')
    case None =>
      p := AcceptedAfter(scheme, None, rest);
      assert "" + rest == rest;
    case Some(at) =>
      UserinfoSplits(rest, at);
      p := AcceptedAfter(scheme, Some(rest[..at]), rest[at + 1..]);
  }

  lemma {:induction false} UserinfoSplits(rest: string, at: nat)
    requires RFind(rest, '@') == Some(at)
    ensures rest == rest[..at] + "@" + rest[at + 1..] && '@' !in rest[at + 1..]
  {
    var authority := rest[at + 1..];
    forall i | 0 <= i < |authority|
      ensures authority[i] != '@'
    {
      assert authority[i] == rest[at + 1 + i];
    }
  }

  lemma AcceptedText(text: string) returns (p: Parts)
    requires ParseText(text).Some?
    ensures PartsOk(p) && text == Written(p)
    ensures ParseText(text).value == (p.host, PortNumber(p.scheme, p.port))
  {
    var n := SchemeLength(text).value;
    SchemeCuts(text);
    p := AcceptedRest(text[..n], text[n + 3..]);
  }

  lemma SchemeCuts(text: string)
    requires SchemeLength(text).Some?
    ensures var n := SchemeLength(text).value;
            n + 3 <= |text| && IsScheme(text[..n]) && text == text[..n] + "://" + text[n + 3..]
  {
    var n := SchemeLength(text).value;
    assert text[n..n + 3] == "://";
    assert text == text[..n] + text[n..n + 3] + text[n + 3..];
  }

  // The grammar by code points, with nothing taken from the parser.

  predicate Letter(c: char) {
    65 <= c as int <= 90 || 97 <= c as int <= 122
  }

  predicate Figure(c: char) {
    48 <= c as int <= 57
  }

  predicate SchemeText(s: string) {
    && |s| > 0 && Letter(s[0])
    && forall i :: 0 <= i < |s| ==> Letter(s[i]) || Figure(s[i]) || s[i] in {'+', '.', '-'}
  }

  predicate NameText(h: string) {
    |h| > 0 && forall i :: 0 <= i < |h| ==> Letter(h[i]) || Figure(h[i]) || h[i] in {'.', '_', '-'}
  }

  /** Figures, the letters a to f in either case, colons and dots, between brackets. */
  predicate AddressText(h: string) {
    && |h| > 2 && h[0] == '[' && h[|h| - 1] == ']'
    && forall i :: 1 <= i < |h| - 1 ==>
         Figure(h[i]) || 65 <= h[i] as int <= 70 || 97 <= h[i] as int <= 102 || h[i] in {':', '.'}
  }

  predicate NoDelimiter(s: string) {
    '/' !in s && '?' !in s && '#' !in s
  }

  predicate TailText(s: string) {
    '@' !in s && (s == "" || s[0] in {'/', '?', '#'})
  }

  /** The same letters, those of `written` in either case. */
  predicate Reads(written: string, name: string) {
    && |written| == |name|
    && forall i :: 0 <= i < |name| ==>
         written[i] == name[i] || (65 <= written[i] as int <= 90 && written[i] as int + 32 == name[i] as int)
  }

  /** The port a scheme stands for when none is written. */
  function ServedAt(scheme: string): nat {
    if Reads(scheme, "postgresql") || Reads(scheme, "postgres") then 5432
    else if Reads(scheme, "mysql") then 3306
    else if Reads(scheme, "starrocks") then 9030
    else if Reads(scheme, "clickhouse") then 8123
    else if Reads(scheme, "grpc") || Reads(scheme, "grpc+tls") || Reads(scheme, "https") then 443
    else if Reads(scheme, "http") then 80
    else 0
  }

  lemma {:induction false} ReadsExactly(written: string, name: string)
    requires forall i :: 0 <= i < |name| ==> !(65 <= name[i] as int <= 90)
    ensures Reads(written, name) <==> Lower(written) == name
  {
    var lower := Lower(written);
    forall i | 0 <= i < |written|
      ensures lower[i] == if 65 <= written[i] as int <= 90 then (written[i] as int + 32) as char else written[i]
    {
    }
  }

  lemma {:induction false} ServedExactly(scheme: string)
    ensures DefaultPort(scheme) == ServedAt(scheme)
  {
    ReadsExactly(scheme, "postgresql");
    ReadsExactly(scheme, "postgres");
    ReadsExactly(scheme, "mysql");
    ReadsExactly(scheme, "starrocks");
    ReadsExactly(scheme, "clickhouse");
    ReadsExactly(scheme, "grpc");
    ReadsExactly(scheme, "grpc+tls");
    ReadsExactly(scheme, "http");
    ReadsExactly(scheme, "https");
  }

  lemma {:induction false} SchemeTextExactly(s: string)
    ensures IsScheme(s) <==> SchemeText(s)
  {
    if IsScheme(s) {
      assert forall i :: 0 <= i < |s| ==> s[i] in s;
    }
  }

  lemma {:induction false} HostTextExactly(h: string)
    ensures IsHost(h) <==> AddressText(h) || NameText(h)
  {
    assert forall i :: 0 <= i < |h| ==> h[i] in h;
    if NameText(h) {
      forall c | c in h
        ensures HostChar(c)
      {
      }
    }
  }

  /** The parts of an endpoint's text, each of them well formed. */
  predicate WellWritten(p: Parts) {
    && SchemeText(p.scheme) && (AddressText(p.host) || NameText(p.host))
    && (p.port.Some? ==> |p.port.value| > 0 && forall i :: 0 <= i < |p.port.value| ==> Figure(p.port.value[i]))
    && (p.userinfo.Some? ==> NoDelimiter(p.userinfo.value))
    && p.newline in {"", "\n"} && TailText(p.tail)
  }

  lemma {:induction false} WellWrittenExactly(p: Parts)
    ensures PartsOk(p) <==> WellWritten(p)
  {
    SchemeTextExactly(p.scheme);
    HostTextExactly(p.host);
  }

  /** scheme "://" [userinfo "@"] host [":" port] newline tail */
  function Text(p: Parts): string {
    p.scheme + "://" + (if p.userinfo.Some? then p.userinfo.value + "@" else "")
    + p.host + (if p.port.Some? then ":" + p.port.value else "") + p.newline + p.tail
  }

  lemma {:induction false} TextIsWritten(p: Parts)
    ensures Text(p) == Written(p)
  {
    var info := if p.userinfo.Some? then p.userinfo.value + "@" else "";
    assert Text(p) == p.scheme + "://" + info + p.host + PortPart(p.port) + p.newline + p.tail;
    assert Written(p) == p.scheme + "://" + (info + (p.host + PortPart(p.port) + p.newline + p.tail));
  }

  /** The text spells this host and this port number, the digits' value or the scheme's default. */
  ghost predicate Spells(text: string, p: Parts, host: string, number: nat) {
    && WellWritten(p) && text == Text(p) && p.host == host
    && number == (if p.port.Some? then ParseNat(p.port.value) else ServedAt(p.scheme))
  }

  lemma {:induction false} SpellsExactly(text: string, p: Parts, host: string, number: nat)
    ensures Spells(text, p, host, number) <==>
            PartsOk(p) && text == Written(p) && p.host == host && number == PortNumber(p.scheme, p.port)
  {
    WellWrittenExactly(p);
    TextIsWritten(p);
    ServedExactly(p.scheme);
  }

  /**
   Acceptance, exactly: a connection string is answered with a host and a port if and only if its stripped text is
   scheme "://" [userinfo "@"] host [":" digits] [newline] [tail] for that host and for that port, the digits' value
   or the scheme's default. Nothing is made up, and nothing well formed is refused.
   */
  lemma {:induction false} ParsesExactly(dsn: string, host: string, number: nat)
    ensures ParseEndpoint(dsn) == Some((host, number)) <==> exists p :: Spells(Strip(dsn), p, host, number)
  {
    if ParseEndpoint(dsn) == Some((host, number)) {
      var p := AcceptedText(Strip(dsn));
      SpellsExactly(Strip(dsn), p, host, number);
      assert Spells(Strip(dsn), p, host, number);
    }
    if p :| Spells(Strip(dsn), p, host, number) {
      SpellsExactly(Strip(dsn), p, host, number);
      WrittenParses(p);
    }
  }

  // ----- what follows -----

  /**
   Printing and parsing: scheme, userinfo if any, host, port if any and tail give back the host and the port, or
   the scheme's default. A password may hold `@` and `:`, not `/`, `?` or `#`.
   */
  lemma PrintThenParse(scheme: string, userinfo: Option<string>, host: string, port: Option<nat>, tail: string)
    requires IsScheme(scheme) && IsHost(host) && IsTail(tail) && '@' !in tail
    requires userinfo.Some? ==> forall c :: c in userinfo.value ==> !EndsAuthority(c)
    ensures var digits := if port.None? then None else Some(NatText(port.value));
            ParseEndpoint(Written(Parts(scheme, userinfo, host, digits, "", tail)))
            == Some((host, if port.None? then DefaultPort(scheme) else port.value))
  {
    var digits := if port.None? then None else Some(NatText(port.value));
    var p := Parts(scheme, userinfo, host, digits, "", tail);
    var p' := p.(tail := RStrip(tail));
    WrittenStrips(p);
    RStripOfTail(tail);
    WrittenParses(p');
    if port.Some? {
      ParseNatText(port.value);
    }
  }

  lemma {:induction false} RStripOfTail(tail: string)
    requires IsTail(tail) && '@' !in tail
    ensures IsTail(RStrip(tail)) && '@' !in RStrip(tail)
  {
    RStripIsPrefix(tail);
    NoneInPrefix(tail, RStrip(tail), '@');
  }

  /** Stripping a written endpoint strips its tail. */
  lemma WrittenStrips(p: Parts)
    requires PartsOk(p) && p.newline == ""
    ensures Strip(Written(p)) == Written(p.(tail := RStrip(p.tail)))
  {
    var info := if p.userinfo.None? then "" else p.userinfo.value + "@";
    var authority := p.host + PortPart(p.port);
    StripKeepsScheme(p.scheme, info + AfterUserinfo(p));
    AuthorityEndsSolid(p.host, p.port);
    var front := info + authority;
    assert front[|front| - 1] == authority[|authority| - 1];
    RStripKeepsFront(front, p.tail);
    assert authority + "" == authority;
    Regroup(info, authority, p.tail);
    Regroup(info, authority, RStrip(p.tail));
  }

  lemma AuthorityEndsSolid(host: string, port: Option<string>)
    requires IsHost(host) && PortOk(port)
    ensures var a := host + PortPart(port); a != [] && !IsSpace(a[|a| - 1])
  {
    HostHasNoDelimiter(host);
    PortPartParses(port);
  }

  /**
   An `@` in the path is refused rather than taken for the end of userinfo: a departure from section 3.2 of RFC 3986.
   */
  lemma AtInPathIsRefused(scheme: string, authority: string, path: string, user: string)
    requires IsScheme(scheme) && path != [] && EndsAuthority(path[0]) && '@' !in user
    ensures ParseEndpoint(scheme + "://" + ((authority + path) + "@" + user)) == None
  {
    var before := authority + path;
    assert before[|authority|] == path[0];
    assert before[|authority|] in before;
    UserinfoExactly(scheme, before, user);
  }

  /** The pattern's `$` lets one newline stand between the authority and what follows it. */
  lemma NewlineAfterHostIsAccepted(p: Parts)
    requires PartsOk(p) && p.newline == "\n" && p.tail != [] && !IsSpace(p.tail[|p.tail| - 1])
    ensures ParseEndpoint(Written(p)) == Some((p.host, PortNumber(p.scheme, p.port)))
  {
    var info := if p.userinfo.None? then "" else p.userinfo.value + "@";
    var rest := info + AfterUserinfo(p);
    StripKeepsScheme(p.scheme, rest);
    assert rest[|rest| - 1] == p.tail[|p.tail| - 1];
    assert RStrip(rest) == rest;
    WrittenParses(p);
  }
}
