/** WebSocket URIs (section 3 of RFC 6455): the parsing constructor, the port check and the printed form. */
module Uri {
  import opened Text

  /** What a `uri` object holds. `port` is a 16-bit value. */
  datatype Fields = Fields(valid: bool, secure: bool, scheme: string, credentials: string,
                           host: string, port: int, resource: string)

  const EMPTY := Fields(false, false, "", "", "", 0, "")

  // ----- Ports -----

  function DefaultPort(secure: bool): int {
    if secure then 443 else 80
  }

  predicate IsSpace(c: char) {
    c == ' ' || '\t' <= c <= '\r'
  }

  function SkipSpaces(s: string): string {
    if s != "" && IsSpace(s[0]) then SkipSpaces(s[1..]) else s
  }

  /** The longest numeral at the front of a string. */
  function NumeralPrefix(s: string): (d: string)
    ensures d <= s && IsNumeral(d)
    ensures d == s || !IsDigit(s[|d|])
  {
    if s == "" || !IsDigit(s[0]) then "" else
      var d := [s[0]] + NumeralPrefix(s[1..]);
      assert s == [s[0]] + s[1..];
      d
  }

  /** `atoi`: optional blanks, an optional sign, and the digits that follow. */
  function Atoi(s: string): int {
    var t := SkipSpaces(s);
    if t == "" then 0
    else if t[0] == '-' then -(Number(NumeralPrefix(t[1..])) as int)
    else if t[0] == '+' then Number(NumeralPrefix(t[1..]))
    else Number(NumeralPrefix(t))
  }

  datatype Port = Port(number: int, ok: bool)

  /** `get_port_from_string`: the number in 16 bits, and whether it is a port. */
  function PortFromString(secure: bool, port: string): Port {
    if port == "" then Port(DefaultPort(secure), true)
    else
      var t := Atoi(port) % 0x1_0000_0000;
      Port(t % 65536, 0 < t <= 65535)
  }

  lemma {:induction false} NumeralPrefixOfNumeral(s: string)
    requires IsNumeral(s)
    ensures NumeralPrefix(s) == s
  {
    if s != "" { NumeralPrefixOfNumeral(s[1..]); }
  }

  /** A printed port reads back. */
  lemma PortRoundTrip(secure: bool, n: nat)
    requires 0 < n <= 65535
    ensures PortFromString(secure, Digits(n)) == Port(n, true)
  {
    AtoiOfDigits(n);
    hide *;
    PortOf(secure, Digits(n), n);
  }

  lemma PortOf(secure: bool, port: string, n: nat)
    requires port != "" && Atoi(port) == n && 0 < n <= 65535
    ensures PortFromString(secure, port) == Port(n, true)
  {
    hide Atoi;
  }

  lemma AtoiOfDigits(n: nat)
    ensures Atoi(Digits(n)) == n
  {
    var s := Digits(n);
    assert IsDigit(s[0]);
    NumeralPrefixOfNumeral(s);
    NumberOfDigits(n);
    hide Digits, Number, NumeralPrefix;
    assert SkipSpaces(s) == s;
  }

  // ----- What the parts of a URI are -----

  predicate HasScheme(text: string, scheme: string) {
    |text| > |scheme| + 3 && text[..|scheme| + 3] == scheme + "://"
  }

  /** The scheme of a text, or an empty string. */
  function SchemeOf(text: string): (scheme: string)
    ensures scheme != "" ==> HasScheme(text, scheme) && IsScheme(scheme)
  {
    if HasScheme(text, "wss") then "wss"
    else if HasScheme(text, "ws") then "ws"
    else if HasScheme(text, "http") then "http"
    else if HasScheme(text, "https") then "https"
    else ""
  }

  predicate IsScheme(scheme: string) {
    scheme == "wss" || scheme == "ws" || scheme == "http" || scheme == "https"
  }

  predicate IsSecure(scheme: string) {
    scheme == "wss" || scheme == "https"
  }

  /** The first `:` or `/`. */
  function HostEnd(s: string): (i: nat)
    ensures i <= |s| && (i < |s| ==> s[i] == ':' || s[i] == '/')
    ensures forall k :: 0 <= k < i ==> s[k] != ':' && s[k] != '/'
  {
    if s == "" || s[0] == ':' || s[0] == '/' then 0 else 1 + HostEnd(s[1..])
  }

  function WithPort(u: Fields, port: string, path: string): Fields {
    var p := PortFromString(u.secure, port);
    if p.ok then u.(port := p.number, resource := "/" + path, valid := true) else u.(port := p.number)
  }

  /** What follows the host: nothing, a path, or a port and perhaps a path. */
  function AfterHost(u: Fields, s: string): Fields {
    if s == "" then WithPort(u, "", "")
    else if s[0] == '/' then WithPort(u, "", s[1..])
    else if s[0] == ':' then AfterColon(u, s[1..])
    else u
  }

  function AfterColon(u: Fields, s: string): Fields {
    var slash := IndexOf(s, '/');
    WithPort(u, s[..slash], if slash < |s| then s[slash + 1..] else "")
  }

  function Authority(u: Fields, s: string): Fields {
    if s != "" && s[0] == '[' then
      var close := IndexOf(s, ']');
      if close == |s| then u else AfterHost(u.(host := s[1..close]), s[close + 1..])
    else
      var end := HostEnd(s);
      AfterHost(u.(host := s[..end]), s[end..])
  }

  function AfterScheme(u: Fields, s: string): Fields {
    var at := IndexOf(s, '@');
    if at < |s| then Authority(u.(credentials := s[..at]), s[at + 1..]) else Authority(u, s)
  }

  /** The fields after parsing a text. */
  function Parsed(text: string): Fields {
    var scheme := SchemeOf(text);
    if scheme == "" then EMPTY
    else AfterScheme(EMPTY.(scheme := scheme, secure := IsSecure(scheme)), text[|scheme| + 3..])
  }

  /** The part of the printed form between the host and the resource. */
  function PortPart(u: Fields): string
    requires 0 <= u.port
  {
    if u.port != DefaultPort(u.secure) then ":" + Digits(u.port) else ""
  }

  /** `str` */
  function Printed(u: Fields): string
    requires 0 <= u.port
  {
    u.scheme + "://" + u.host + PortPart(u) + u.resource
  }

  // ----- The class -----

  class Uri {
    var valid: bool
    var secure: bool
    var scheme: string
    var credentials: string
    var host: string
    var port: int
    var resource: string

    function View(): Fields
      reads this
    {
      Fields(valid, secure, scheme, credentials, host, port, resource)
    }

    /** The parsing constructor. */
    constructor (text: string)
      ensures View() == Parsed(text)
    {
      valid, secure, scheme, credentials, host, port, resource := false, false, "", "", "", 0, "";
      new;
      hide HasScheme, SchemeOf, IsSecure, Parsed, AfterScheme, Authority, AfterHost, AfterColon, WithPort, IndexOf, HostEnd, PortFromString;
      SchemeIs(text);
      var it := 0;
      if |text| >= 7 && text[..6] == "wss://" {
        secure, scheme, it := true, "wss", 6;
      } else if |text| >= 6 && text[..5] == "ws://" {
        secure, scheme, it := false, "ws", 5;
      } else if |text| >= 8 && text[..7] == "http://" {
        secure, scheme, it := false, "http", 7;
      } else if |text| >= 9 && text[..8] == "https://" {
        secure, scheme, it := true, "https", 8;
      } else {
        ParsedNothing(text);
        return;
      }
      ghost var u := View();
      assert u == EMPTY.(scheme := scheme, secure := IsSecure(scheme)) by { SecureIs(scheme); }
      SchemeOfIs(text);
      ParsedScheme(text, scheme);
      var rest := text[it..];
      var found := IndexOf(rest, '@');
      AfterSchemeIs(u, rest);
      if found < |rest| {
        credentials := rest[..found];
        it := it + found + 1;
        assert text[it..] == rest[found + 1..];
      }
      Remaining(text, it);
    }

    /** The rest of the parsing constructor: the host, the port and the resource. */
    method Remaining(text: string, start: nat)
      requires start <= |text| && host == ""
      modifies this
      ensures View() == Authority(old(View()), text[start..])
    {
      hide HasScheme, SchemeOf, IsSecure, Parsed, AfterScheme, Authority, AfterHost, AfterColon, WithPort, IndexOf, HostEnd, PortFromString;
      ghost var u, s := View(), text[start..];
      var it, state := start, 0;
      if it < |text| && text[it] == '[' {
        AuthorityOfLiteral(u, s);
        host, it, state := ScanLiteral(text, start);
        ghost var close := IndexOf(s, ']');
        if close < |s| {
          AfterHostIs(u.(host := host), s[close + 1..]);
        }
        if state == 0 {
          return;
        }
      } else {
        AuthorityOfName(u, s);
        host, it, state := ScanHost(text, start);
        assert s[HostEnd(s)..] == text[start + HostEnd(s)..];
        AfterHostIs(u.(host := host), text[start + HostEnd(s)..]);
      }
      PortAndResource(text, it, state);
    }

    /** Reads a bracketed IPv6 literal; state 0 means that it is not closed or is followed by something else. */
    static method ScanLiteral(text: string, start: nat) returns (host: string, it: nat, state: int)
      requires start < |text| && text[start] == '['
      ensures it <= |text|
      ensures var s := text[start..];
              var close := IndexOf(s, ']');
              if close == |s| then host == "" && state == 0
              else
                var after := s[close + 1..];
                && host == s[1..close]
                && (if after == "" || after[0] == '/' then state == 2
                    else if after[0] == ':' then state == 1 else state == 0)
                && (state != 0 ==> text[it..] == if after == "" then "" else after[1..])
    {
      hide IndexOf;
      host, it, state := "", start + 1, 0;
      ghost var s := text[start..];
      var temp := FindBracket(text, it);
      BracketIs(s, temp - start, text[it..]);
      if temp == |text| {
        return;
      }
      host := host + text[it..temp];
      assert host == s[1..temp - start];
      it := temp + 1;
      assert text[it..] == s[temp - start + 1..];
      if it == |text| {
        state := 2;
      } else if text[it] == '/' {
        state := 2;
        it := it + 1;
      } else if text[it] == ':' {
        state := 1;
        it := it + 1;
      }
    }

    /** Looks for the bracket that closes an IPv6 literal. */
    static method FindBracket(text: string, it: nat) returns (temp: nat)
      requires it <= |text|
      ensures temp == it + IndexOf(text[it..], ']')
    {
      hide *;
      temp := it;
      while temp != |text|
        invariant it <= temp <= |text|
        invariant forall k :: 0 <= k < temp - it ==> text[it..][k] != ']'
      {
        if text[temp] == ']' {
          break;
        }
        temp := temp + 1;
      }
      FirstIs(text[it..], ']', temp - it);
    }

    method PortAndResource(text: string, start: nat, state: int)
      requires start <= |text|
      modifies this
      ensures View() == if state == 1 then AfterColon(old(View()), text[start..]) else WithPort(old(View()), "", text[start..])
    {
      hide AfterColon, PortFromString, IndexOf;
      ghost var u, s := View(), text[start..];
      var text0, it := "", start;
      if state == 1 {
        text0, it := ScanPort(text, start);
        AfterColonIs(u, s);
      }
      var p := PortFromString(secure, text0);
      port := p.number;
      if !p.ok {
        return;
      }
      resource := "/" + text[it..];
      valid := true;
    }

    /** Reads the port from position `start`, up to a slash or the end. */
    static method ScanPort(text: string, start: nat) returns (port: string, it: nat)
      requires start <= |text|
      ensures it <= |text|
      ensures var s := text[start..];
              var slash := IndexOf(s, '/');
              && port == s[..slash]
              && text[it..] == if slash < |s| then s[slash + 1..] else ""
    {
      it, port := start, "";
      ghost var s := text[start..];
      var state := 1;
      while state == 1
        invariant start <= it <= |text|
        invariant state == 1 ==> port == text[start..it] && forall k :: 0 <= k < it - start ==> s[k] != '/'
        invariant state == 3 ==> it > start && text[it - 1] == '/' && port == text[start..it - 1]
        invariant state == 3 ==> forall k :: 0 <= k < it - 1 - start ==> s[k] != '/'
        invariant state == 1 || state == 3
        decreases |text| - it, state == 1
      {
        if it == |text| {
          break;
        } else if text[it] == '/' {
          state := 3;
        } else {
          port := port + [text[it]];
        }
        it := it + 1;
      }
      FirstIs(s, '/', |port|);
    }

    /** Reads a host name from position `start`, up to a colon, a slash or the end. */
    static method ScanHost(text: string, start: nat) returns (host: string, it: nat, state: int)
      requires start <= |text|
      ensures it <= |text| && (state == 1 || state == 2)
      ensures var s := text[start..];
              var end := HostEnd(s);
              && host == s[..end]
              && (end == |s| ==> it == |text| && state == 2)
              && (end < |s| ==> it == start + end + 1 && state == if s[end] == ':' then 1 else 2)
    {
      it, host, state := start, "", 0;
      ghost var s := text[start..];
      while state == 0
        invariant start <= it <= |text|
        invariant 0 <= state <= 2
        invariant state == 0 ==> host == text[start..it]
        invariant state != 0 ==> it > start && host == text[start..it - 1]
        invariant state == 1 ==> text[it - 1] == ':'
        invariant state == 2 ==> text[it - 1] == '/'
        invariant forall k :: 0 <= k < |host| ==> s[k] != ':' && s[k] != '/'
        decreases |text| - it, state == 0
      {
        if it == |text| {
          state := 2;
          break;
        } else if text[it] == '/' {
          state := 2;
        } else if text[it] == ':' {
          state := 1;
        } else {
          host := host + [text[it]];
        }
        it := it + 1;
      }
      HostEndIs(s, |host|);
    }
  }

  lemma SchemeIs(text: string)
    ensures |text| >= 7 && text[..6] == "wss://" <==> HasScheme(text, "wss")
    ensures |text| >= 6 && text[..5] == "ws://" <==> HasScheme(text, "ws")
    ensures |text| >= 8 && text[..7] == "http://" <==> HasScheme(text, "http")
    ensures |text| >= 9 && text[..8] == "https://" <==> HasScheme(text, "https")
  {
    assert "wss" + "://" == "wss://" && "ws" + "://" == "ws://";
    assert "http" + "://" == "http://" && "https" + "://" == "https://";
  }

  lemma SecureIs(scheme: string)
    ensures IsSecure(scheme) <==> scheme == "wss" || scheme == "https"
  {
  }

  lemma ParsedNothing(text: string)
    requires !HasScheme(text, "wss") && !HasScheme(text, "ws") && !HasScheme(text, "http") && !HasScheme(text, "https")
    ensures Parsed(text) == EMPTY
  {
  }

  lemma SchemeOfIs(text: string)
    ensures SchemeOf(text) == if HasScheme(text, "wss") then "wss" else if HasScheme(text, "ws") then "ws"
                              else if HasScheme(text, "http") then "http"
                              else if HasScheme(text, "https") then "https" else ""
  {
    hide HasScheme;
  }

  lemma ParsedScheme(text: string, scheme: string)
    requires scheme == SchemeOf(text) && scheme != ""
    ensures Parsed(text) ==
            AfterScheme(EMPTY.(scheme := scheme, secure := IsSecure(scheme)), text[|scheme| + 3..])
  {
    hide AfterScheme, IndexOf;
  }

  lemma AfterSchemeIs(u: Fields, s: string)
    ensures var at := IndexOf(s, '@');
            AfterScheme(u, s) == if at < |s| then Authority(u.(credentials := s[..at]), s[at + 1..]) else Authority(u, s)
  {
    hide Authority, IndexOf;
  }

  lemma AuthorityOfLiteral(u: Fields, s: string)
    requires s != "" && s[0] == '['
    ensures var close := IndexOf(s, ']');
            Authority(u, s) == if close == |s| then u else AfterHost(u.(host := s[1..close]), s[close + 1..])
  {
    hide AfterHost, IndexOf;
    assert s[IndexOf(s, ']')..] != s;
  }

  lemma AuthorityOfName(u: Fields, s: string)
    requires s == "" || s[0] != '['
    ensures Authority(u, s) == AfterHost(u.(host := s[..HostEnd(s)]), s[HostEnd(s)..])
  {
    hide AfterHost, HostEnd;
  }

  lemma BracketIs(s: string, i: nat, t: string)
    requires s != "" && s[0] == '[' && t == s[1..]
    requires i == 1 + IndexOf(t, ']')
    ensures IndexOf(s, ']') == i
  {
  }

  lemma AfterHostIs(u: Fields, s: string)
    ensures s == "" ==> AfterHost(u, s) == WithPort(u, "", s)
    ensures s != "" && s[0] == '/' ==> AfterHost(u, s) == WithPort(u, "", s[1..])
    ensures s != "" && s[0] == ':' ==> AfterHost(u, s) == AfterColon(u, s[1..])
    ensures s != "" && s[0] != '/' && s[0] != ':' ==> AfterHost(u, s) == u
  {
    hide WithPort, AfterColon;
  }

  lemma AfterColonIs(u: Fields, s: string)
    ensures var slash := IndexOf(s, '/');
            AfterColon(u, s) == WithPort(u, s[..slash], if slash < |s| then s[slash + 1..] else "")
  {
    hide WithPort, IndexOf;
  }

  lemma FirstIs(s: string, c: char, i: nat)
    requires i <= |s| && (i < |s| ==> s[i] == c)
    requires forall k :: 0 <= k < i ==> s[k] != c
    ensures IndexOf(s, c) == i
  {
  }

  lemma HostEndIs(s: string, i: nat)
    requires i <= |s| && (i < |s| ==> s[i] == ':' || s[i] == '/')
    requires forall k :: 0 <= k < i ==> s[k] != ':' && s[k] != '/'
    ensures HostEnd(s) == i
  {
  }

  // ----- Printing and parsing -----

  /** The URIs whose printed form can be read back. */
  predicate Printable(u: Fields) {
    && IsScheme(u.scheme) && u.secure == IsSecure(u.scheme)
    && 0 < u.port <= 65535
    && '@' !in u.host && ':' !in u.host && '/' !in u.host && (u.host == "" || u.host[0] != '[')
    && u.resource != "" && u.resource[0] == '/' && '@' !in u.resource
  }

  lemma PortPartIs(u: Fields)
    requires 0 <= u.port
    ensures var p := PortPart(u);
            && '@' !in p && '/' !in p
            && (u.port == DefaultPort(u.secure) ==> p == "")
            && (u.port != DefaultPort(u.secure) ==> p != "" && p[0] == ':' && p[1..] == Digits(u.port) && '/' !in p[1..])
  {
    hide Digits;
  }

  /** What is printed after the scheme. */
  function AfterSchemePart(u: Fields): string
    requires 0 <= u.port
  {
    u.host + PortPart(u) + u.resource
  }

  lemma PrintedParts(u: Fields)
    requires 0 <= u.port
    ensures var text := Printed(u);
            && |text| >= |u.scheme| + 3 && text[..|u.scheme| + 3] == u.scheme + "://"
            && text[|u.scheme| + 3..] == AfterSchemePart(u)
  {
    hide PortPart;
    assert Printed(u) == u.scheme + "://" + AfterSchemePart(u);
  }

  lemma SchemeIsOnly(text: string, scheme: string)
    requires IsScheme(scheme) && HasScheme(text, scheme)
    ensures SchemeOf(text) == scheme
  {
    var prefix := text[..|scheme| + 3];
    assert prefix[|scheme|] == ':' && text[|scheme|] == ':';
    assert forall i :: 0 <= i < |scheme| ==> text[i] == prefix[i] == scheme[i];
    SchemeOfIs(text);
    if HasScheme(text, "wss") { OtherScheme(text, scheme, "wss"); }
    if HasScheme(text, "ws") { OtherScheme(text, scheme, "ws"); }
    if HasScheme(text, "http") { OtherScheme(text, scheme, "http"); }
  }

  lemma OtherScheme(text: string, scheme: string, other: string)
    requires HasScheme(text, scheme) && HasScheme(text, other)
    requires ':' !in scheme && ':' !in other
    ensures scheme == other
  {
    HasSchemeAt(text, scheme);
    HasSchemeAt(text, other);
  }

  lemma HasSchemeAt(text: string, scheme: string)
    requires HasScheme(text, scheme) && ':' !in scheme
    ensures IndexOf(text, ':') == |scheme| && text[..|scheme|] == scheme
  {
    var prefix := text[..|scheme| + 3];
    assert prefix == scheme + "://";
    assert prefix == scheme + [':'] + "//";
    assert text == scheme + [':'] + ("//" + text[|scheme| + 3..]);
    IndexOfFound(scheme, ':', "//" + text[|scheme| + 3..]);
  }

  lemma PrintableRoundTrip(u: Fields)
    requires u.valid && Printable(u)
    ensures Parsed(Printed(u)) == u.(credentials := "")
  {
    PrintedScheme(u);
    hide SchemeOf, Parsed, AfterScheme, Authority, Printed, AfterSchemePart;
    AuthorityRoundTrip(EMPTY.(scheme := u.scheme, secure := u.secure), u);
  }

  lemma PrintedScheme(u: Fields)
    requires Printable(u)
    ensures Parsed(Printed(u)) ==
            AfterScheme(EMPTY.(scheme := u.scheme, secure := u.secure), AfterSchemePart(u))
  {
    PrintedParts(u);
    PartsIs(u);
    hide SchemeOf, Parsed, AfterScheme, PortPart, Printed, AfterSchemePart;
    SchemeIsOnly(Printed(u), u.scheme);
    ParsedScheme(Printed(u), u.scheme);
  }

  lemma AuthorityRoundTrip(w: Fields, u: Fields)
    requires u.valid && Printable(u)
    requires w == EMPTY.(scheme := u.scheme, secure := u.secure)
    ensures AfterScheme(w, AfterSchemePart(u)) == u.(credentials := "")
  {
    NoAt(u);
    HostPart(u);
    hide AfterScheme, Authority, AfterHost, PortPart, AfterSchemePart, IndexOf, HostEnd;
    var rest := AfterSchemePart(u);
    AfterSchemeIs(w, rest);
    AuthorityOfName(w, rest);
    AfterHostRoundTrip(w.(host := u.host), u);
  }

  lemma HostPart(u: Fields)
    requires Printable(u)
    ensures var rest := AfterSchemePart(u);
            && rest != "" && rest[0] != '['
            && HostEnd(rest) == |u.host| && rest[..|u.host|] == u.host
            && rest[|u.host|..] == PortPart(u) + u.resource
  {
    PartsIs(u);
    EndOfHost(u);
    hide AfterSchemePart, PortPart;
    var rest := AfterSchemePart(u);
    assert rest[..|u.host|] == u.host;
    assert u.host != "" ==> rest[0] == u.host[0];
    HostEndIs(rest, |u.host|);
  }

  lemma PartsIs(u: Fields)
    requires 0 <= u.port
    ensures AfterSchemePart(u) == u.host + PortPart(u) + u.resource
  {
  }

  lemma NoAt(u: Fields)
    requires Printable(u)
    ensures IndexOf(AfterSchemePart(u), '@') == |AfterSchemePart(u)|
  {
    PortPartIs(u);
    hide PortPart;
    IndexOfMissing(AfterSchemePart(u), '@');
  }

  lemma AfterHostRoundTrip(w: Fields, u: Fields)
    requires Printable(u) && u.valid
    requires w == EMPTY.(scheme := u.scheme, secure := u.secure, host := u.host)
    ensures AfterHost(w, PortPart(u) + u.resource) == u.(credentials := "")
  {
    hide AfterHost, AfterColon, PortPart, Digits, IndexOf, PortFromString;
    var p, s := PortPart(u), PortPart(u) + u.resource;
    PortPartIs(u);
    AfterHostIs(w, s);
    var path := u.resource[1..];
    assert u.resource == "/" + path;
    if u.port == DefaultPort(u.secure) {
      assert s == u.resource;
      DefaultPortIs(u.secure);
    } else {
      var digits := Digits(u.port);
      assert s[1..] == digits + ['/'] + path;
      AfterColonIs(w, s[1..]);
      IndexOfFound(digits, '/', path);
      PortRoundTrip(u.secure, u.port);
      assert s[1..][..|digits|] == digits && s[1..][|digits| + 1..] == path;
    }
  }

  lemma DefaultPortIs(secure: bool)
    ensures PortFromString(secure, "") == Port(DefaultPort(secure), true)
  {
  }

  /** What a valid parse of the part after the scheme and credentials says about that part. */
  lemma AuthorityFacts(u: Fields, s: string)
    requires !u.valid && Authority(u, s).valid
    ensures var v := Authority(u, s);
            && v.scheme == u.scheme && v.secure == u.secure && v.credentials == u.credentials
            && 0 < v.port <= 65535
            && v.resource != "" && v.resource[0] == '/'
            && (s != "" && s[0] == '[' ==> |v.host| + 2 <= |s| && s[1..|v.host| + 1] == v.host)
            && (s == "" || s[0] != '[' ==> v.host <= s && ':' !in v.host && '/' !in v.host)
  {
    hide Authority, AfterHost, IndexOf, HostEnd;
    if s != "" && s[0] == '[' {
      AuthorityOfLiteral(u, s);
      var close := IndexOf(s, ']');
      assert close < |s| && close != 0;
      AfterHostFacts(u.(host := s[1..close]), s[close + 1..]);
    } else {
      AuthorityOfName(u, s);
      AfterHostFacts(u.(host := s[..HostEnd(s)]), s[HostEnd(s)..]);
    }
  }

  lemma AfterHostFacts(u: Fields, s: string)
    requires !u.valid && AfterHost(u, s).valid
    ensures var v := AfterHost(u, s);
            && v == u.(valid := true, port := v.port, resource := v.resource)
            && 0 < v.port <= 65535
            && v.resource != "" && v.resource[0] == '/'
  {
    hide Atoi, IndexOf;
  }

  /** A text that starts with `n` characters also found `d` places later repeats its first `d` characters. */
  lemma {:induction false} Periodic(rest: string, n: nat, d: nat, k: nat)
    requires d > 0 && n + d <= |rest| && rest[..n] == rest[d..n + d]
    requires forall i :: 0 <= i < d ==> rest[i] == '@' || rest[i] == '['
    requires k < n + d
    ensures rest[k] == '@' || rest[k] == '['
  {
    if k >= d {
      Periodic(rest, n, d, k - d);
      assert rest[k] == rest[d..n + d][k - d] == rest[..n][k - d];
    }
  }

  /** A host read back from behind an `@` or a bracket is not the host that was printed. */
  lemma HostAtStart(u: Fields, d: nat)
    requires 0 <= u.port && u.resource != "" && u.resource[0] == '/'
    requires d + |u.host| <= |AfterSchemePart(u)| && AfterSchemePart(u)[d..d + |u.host|] == u.host
    requires forall i :: 0 <= i < d ==> AfterSchemePart(u)[i] == '@' || AfterSchemePart(u)[i] == '['
    ensures d == 0
  {
    var rest, n := AfterSchemePart(u), |u.host|;
    EndOfHost(u);
    PartsIs(u);
    hide AfterSchemePart, PortPart;
    assert rest[..n] == u.host;
    if d > 0 { Periodic(rest, n, d, n); }
  }

  lemma EndOfHost(u: Fields)
    requires 0 <= u.port && u.resource != "" && u.resource[0] == '/'
    ensures var rest := AfterSchemePart(u);
            |u.host| < |rest| && (rest[|u.host|] == ':' || rest[|u.host|] == '/')
  {
    PortPartIs(u);
    hide PortPart;
    if PortPart(u) == "" {
      assert AfterSchemePart(u)[|u.host|] == u.resource[0];
    } else {
      assert AfterSchemePart(u)[|u.host|] == PortPart(u)[0];
    }
  }

  lemma RoundTripIsPrintable(u: Fields)
    requires u.valid && 0 <= u.port
    requires Parsed(Printed(u)) == u.(credentials := "")
    ensures Printable(u)
  {
    hide *;
    var text, rest := Printed(u), AfterSchemePart(u);
    ParsedValid(text);
    SchemeNamed(u.scheme);
    ParsedScheme(text, u.scheme);
    var w := EMPTY.(scheme := u.scheme, secure := IsSecure(u.scheme));
    PrintedParts(u);
    AfterSchemeIs(w, rest);
    EmptyIs();
    var at := IndexOf(rest, '@');
    var s := if at < |rest| then rest[at + 1..] else rest;
    AuthorityFacts(w.(credentials := if at < |rest| then rest[..at] else ""), s);
    var d := (if at < |rest| then 1 else 0) + (if s != "" && s[0] == '[' then 1 else 0);
    HostAt(rest, at, s, u.host, d);
    HostAtStart(u, d);
    PartsIs(u);
    EndOfHost(u);
    PrintableIs(u);
  }

  lemma HostAt(rest: string, at: nat, s: string, host: string, d: nat)
    requires at <= |rest| && (at < |rest| ==> at == 0 && rest[0] == '@')
    requires s == if at < |rest| then rest[at + 1..] else rest
    requires if s != "" && s[0] == '[' then |host| + 2 <= |s| && s[1..|host| + 1] == host else host <= s
    requires d == (if at < |rest| then 1 else 0) + (if s != "" && s[0] == '[' then 1 else 0)
    ensures d + |host| <= |rest| && rest[d..d + |host|] == host
    ensures forall i :: 0 <= i < d ==> rest[i] == '@' || rest[i] == '['
  {
    assert rest[|rest| - |s|..] == s;
  }

  lemma SchemeNamed(scheme: string)
    ensures IsScheme(scheme) ==> scheme != ""
  {
  }

  lemma ParsedValid(text: string)
    requires Parsed(text).valid
    ensures SchemeOf(text) == Parsed(text).scheme && IsScheme(Parsed(text).scheme)
  {
    hide *;
    var scheme := SchemeOf(text);
    EmptyIs();
    NotEmptyText(text);
    ParsedScheme(text, scheme);
    var u, s := EMPTY.(scheme := scheme, secure := IsSecure(scheme)), text[|scheme| + 3..];
    AfterSchemeIs(u, s);
    var at := IndexOf(s, '@');
    AuthorityFacts(if at < |s| then u.(credentials := s[..at]) else u, if at < |s| then s[at + 1..] else s);
  }

  lemma NotEmptyText(text: string)
    requires Parsed(text).valid
    ensures SchemeOf(text) != "" && |text| > |SchemeOf(text)| + 3
  {
    hide SchemeOf;
  }

  lemma EmptyIs()
    ensures !EMPTY.valid && EMPTY.credentials == ""
  {
  }

  lemma PrintableIs(u: Fields)
    requires IsScheme(u.scheme) && u.secure == IsSecure(u.scheme)
    requires 0 < u.port <= 65535
    requires u.resource != "" && u.resource[0] == '/'
    requires var rest := AfterSchemePart(u);
             && IndexOf(rest, '@') == |rest|
             && rest != "" && rest[0] != '[' && ':' !in u.host && '/' !in u.host
    ensures Printable(u)
  {
    hide PortPart, IndexOf;
    var rest := AfterSchemePart(u);
    assert forall c :: c in u.host || c in u.resource ==> c in rest;
    assert forall k :: 0 <= k < |rest| ==> rest[k] != '@';
    assert u.host != "" ==> u.host[0] == rest[0];
  }

  /** Parsing the printed form gives back every printed field of a valid URI exactly when it is `Printable`. */
  lemma ParsePrint(u: Fields)
    requires u.valid && 0 <= u.port
    ensures Parsed(Printed(u)) == u.(credentials := "") <==> Printable(u)
  {
    hide *;
    if Printable(u) { PrintableRoundTrip(u); }
    if Parsed(Printed(u)) == u.(credentials := "") { RoundTripIsPrintable(u); }
  }
}
