/** What a URI is read as, told from its parts: scheme, credentials, host, port and path. */
module UriForms {
  import opened Options
  import opened Text
  import opened Uri

  // ----- Ports -----

  /** What `atoi` passes over. */
  predicate Blanks(w: string) {
    forall k :: 0 <= k < |w| ==> w[k] == ' ' || 9 <= w[k] as int <= 13
  }

  predicate Sign(s: string) {
    s == "" || s == "+" || s == "-"
  }

  predicate Numeral(d: string) {
    forall k :: 0 <= k < |d| ==> '0' <= d[k] <= '9'
  }

  /** Blanks, a sign, a numeral, and whatever follows it. */
  function NumberForm(w: string, sign: string, d: string, rest: string): string {
    w + (sign + (d + rest))
  }

  /** The numeral starts behind the sign, and ends before `rest`. */
  predicate NumberShaped(w: string, sign: string, d: string, rest: string) {
    && Blanks(w) && Sign(sign) && Numeral(d) && (rest != "" ==> !('0' <= rest[0] <= '9'))
    && (sign == "" && d == "" && rest != "" ==> rest[0] != '+' && rest[0] != '-' && rest[0] != ' ' && !(9 <= rest[0] as int <= 13))
  }

  lemma {:induction false} BlanksSkipped(w: string, t: string)
    requires Blanks(w) && (t != "" ==> t[0] != ' ' && !(9 <= t[0] as int <= 13))
    ensures SkipSpaces(w + t) == t
  {
    if w == "" {
      assert w + t == t;
    } else {
      assert (w + t)[1..] == w[1..] + t;
      BlanksSkipped(w[1..], t);
    }
  }

  lemma {:induction false} NumeralRead(d: string, rest: string)
    requires Numeral(d) && (rest != "" ==> !('0' <= rest[0] <= '9'))
    ensures NumeralPrefix(d + rest) == d
  {
    if d == "" {
      assert d + rest == rest;
    } else {
      assert (d + rest)[1..] == d[1..] + rest;
      NumeralRead(d[1..], rest);
    }
  }

  lemma AtoiReads(w: string, sign: string, d: string, rest: string)
    requires NumberShaped(w, sign, d, rest)
    ensures IsNumeral(d)
    ensures Atoi(NumberForm(w, sign, d, rest)) == if sign == "-" then -(Number(d) as int) else Number(d)
  {
    assert forall k :: 0 <= k < |d| ==> IsDigit(d[k]);
    var t := sign + (d + rest);
    SignFirst(sign, d, rest);
    NumeralRead(d, rest);
    BlanksSkipped(w, t);
    NoNumeral();
    hide Number, SkipSpaces, NumeralPrefix, Blanks, Numeral, IsNumeral;
    if sign == "" { assert t == d + rest; } else { assert t[1..] == d + rest; }
  }

  lemma SignFirst(sign: string, d: string, rest: string)
    requires NumberShaped("", sign, d, rest)
    ensures var t := sign + (d + rest);
            && (t != "" ==> t[0] != ' ' && !(9 <= t[0] as int <= 13))
            && (t == "" ==> d == "")
            && (t != "" ==> (t[0] == '-' <==> sign == "-") && (t[0] == '+' <==> sign == "+"))
  {
    if sign == "" { assert sign + (d + rest) == d + rest; }
  }

  lemma NoNumeral()
    ensures Number("") == 0
  {
  }

  /** A port text stands for a port exactly when its number is from 1 to 65535; without a text it is 80, or 443 when secure. */
  lemma PortIff(secure: bool, w: string, sign: string, d: string, rest: string)
    requires NumberShaped(w, sign, d, rest) && IsNumeral(d) && Number(d) < 0x8000_0000
    ensures var text, n := NumberForm(w, sign, d, rest), if sign == "-" then -(Number(d) as int) else Number(d);
            var p := PortFromString(secure, text);
            if text == "" then p == Port(if secure then 443 else 80, true)
            else (p.ok <==> 1 <= n <= 65535) && (p.ok ==> p.number == n) && p.number == n % 65536
  {
    hide *;
    AtoiReads(w, sign, d, rest);
    var text := NumberForm(w, sign, d, rest);
    if text == "" { NoPort(secure); } else { PortOfNumber(secure, text, Atoi(text)); }
  }

  lemma NoPort(secure: bool)
    ensures PortFromString(secure, "") == Port(if secure then 443 else 80, true)
  {
  }

  lemma PortOfNumber(secure: bool, text: string, n: int)
    requires text != "" && n == Atoi(text) && -0x8000_0000 < n < 0x8000_0000
    ensures var p := PortFromString(secure, text);
            (p.ok <==> 1 <= n <= 65535) && (p.ok ==> p.number == n) && p.number == n % 65536
  {
    hide Atoi;
    Wraps(n);
  }

  lemma Wraps(n: int)
    requires -0x8000_0000 < n < 0x8000_0000
    ensures n % 0x1_0000_0000 % 65536 == n % 65536
    ensures n >= 0 ==> n % 0x1_0000_0000 == n
    ensures n < 0 ==> n % 0x1_0000_0000 > 65535
  {
    if n < 0 {
      assert n % 0x1_0000_0000 == n + 0x1_0000_0000;
      assert (n + 65536 * 65536) % 65536 == n % 65536;
    }
  }

  // ----- URIs -----

  /** A URI by its parts; a bracketed host is an IPv6 literal. */
  datatype Parts = Parts(scheme: string, credentials: Option<string>, bracketed: bool, host: string,
                         port: Option<string>, path: Option<string>)

  function PathForm(x: Parts): string {
    match x.path case None => "" case Some(path) => "/" + path
  }

  function PortForm(x: Parts): string {
    match x.port case None => PathForm(x) case Some(port) => ":" + (port + PathForm(x))
  }

  function HostForm(x: Parts): string {
    if x.bracketed then "[" + (x.host + ("]" + PortForm(x))) else x.host + PortForm(x)
  }

  function AuthorityForm(x: Parts): string {
    match x.credentials case None => HostForm(x) case Some(c) => c + ("@" + HostForm(x))
  }

  function Form(x: Parts): string {
    x.scheme + ("://" + AuthorityForm(x))
  }

  /** Each part ends where the next one starts, and something follows the scheme. */
  predicate Shaped(x: Parts) {
    && (x.scheme == "ws" || x.scheme == "wss" || x.scheme == "http" || x.scheme == "https")
    && AuthorityForm(x) != ""
    && '@' !in (match x.credentials case None => HostForm(x) case Some(c) => c)
    && (if x.bracketed then ']' !in x.host
        else ':' !in x.host && '/' !in x.host && (HostForm(x) != "" ==> HostForm(x)[0] != '['))
    && (x.port.Some? ==> '/' !in x.port.value)
  }

  /** What follows a host. */
  lemma PortRead(u: Fields, x: Parts)
    requires x.port.Some? ==> '/' !in x.port.value
    ensures AfterHost(u, PortForm(x)) ==
            WithPort(u, if x.port.Some? then x.port.value else "", if x.path.Some? then x.path.value else "")
  {
    hide AfterHost, WithPort, AfterColon, IndexOf;
    var s := PortForm(x);
    AfterHostIs(u, s);
    match x.port
    case None =>
      if x.path.Some? { assert s[1..] == x.path.value; }
    case Some(port) =>
      assert s[1..] == port + PathForm(x);
      AfterColonIs(u, s[1..]);
      if x.path.Some? {
        assert port + PathForm(x) == port + ['/'] + x.path.value;
        IndexOfFound(port, '/', x.path.value);
        assert (port + PathForm(x))[..|port|] == port && (port + PathForm(x))[|port| + 1..] == x.path.value;
      } else {
        assert port + PathForm(x) == port;
        IndexOfMissing(port, '/');
      }
  }

  lemma HostRead(u: Fields, x: Parts)
    requires if x.bracketed then ']' !in x.host
             else ':' !in x.host && '/' !in x.host && (HostForm(x) != "" ==> HostForm(x)[0] != '[')
    ensures Authority(u, HostForm(x)) == AfterHost(u.(host := x.host), PortForm(x))
  {
    hide Authority, AfterHost, IndexOf, HostEnd;
    var s := HostForm(x);
    if x.bracketed {
      assert s == "[" + x.host + [']'] + PortForm(x);
      AuthorityOfLiteral(u, s);
      IndexOfFound("[" + x.host, ']', PortForm(x));
      assert s[1..|x.host| + 1] == x.host && s[|x.host| + 2..] == PortForm(x);
    } else {
      AuthorityOfName(u, s);
      assert forall k :: 0 <= k < |x.host| ==> s[k] == x.host[k] && s[k] in x.host;
      assert PortForm(x) != "" ==> s[|x.host|] == PortForm(x)[0];
      HostEndIs(s, |x.host|);
      assert s[..|x.host|] == x.host && s[|x.host|..] == PortForm(x);
    }
  }

  lemma AuthorityRead(u: Fields, x: Parts)
    requires '@' !in (match x.credentials case None => HostForm(x) case Some(c) => c)
    ensures AfterScheme(u, AuthorityForm(x)) ==
            match x.credentials
            case None => Authority(u, HostForm(x))
            case Some(c) => Authority(u.(credentials := c), HostForm(x))
  {
    hide AfterScheme, Authority, IndexOf, HostForm;
    var s := AuthorityForm(x);
    AfterSchemeIs(u, s);
    match x.credentials
    case None =>
      IndexOfMissing(s, '@');
    case Some(c) =>
      assert s == c + ['@'] + HostForm(x);
      IndexOfFound(c, '@', HostForm(x));
      assert s[..|c|] == c && s[|c| + 1..] == HostForm(x);
  }

  lemma SchemeRead(scheme: string, rest: string)
    requires scheme == "ws" || scheme == "wss" || scheme == "http" || scheme == "https"
    requires rest != ""
    ensures Parsed(scheme + ("://" + rest)) ==
            AfterScheme(Fields(false, scheme == "wss" || scheme == "https", scheme, "", "", 0, ""), rest)
  {
    hide SchemeOf, Parsed, AfterScheme;
    var text := scheme + ("://" + rest);
    assert text[..|scheme| + 3] == scheme + "://" && text[|scheme| + 3..] == rest;
    SchemeIsOnly(text, scheme);
    ParsedScheme(text, scheme);
  }

  /** Every part is read as what it is; the URI is valid exactly when its port is one. */
  lemma PartsRead(x: Parts)
    requires Shaped(x)
    ensures var secure := x.scheme == "wss" || x.scheme == "https";
            var p := PortFromString(secure, if x.port.Some? then x.port.value else "");
            Parsed(Form(x)) ==
            Fields(p.ok, secure, x.scheme, if x.credentials.Some? then x.credentials.value else "", x.host, p.number,
                   if p.ok then "/" + (if x.path.Some? then x.path.value else "") else "")
  {
    hide Parsed, AfterScheme, Authority, AfterHost, AuthorityForm, HostForm, PortForm, PortFromString;
    var u := Fields(false, x.scheme == "wss" || x.scheme == "https", x.scheme, "", "", 0, "");
    SchemeRead(x.scheme, AuthorityForm(x));
    AuthorityRead(u, x);
    var v := u.(credentials := if x.credentials.Some? then x.credentials.value else "");
    HostRead(v, x);
    PortRead(v.(host := x.host), x);
  }

  /** Without one of the four schemes, or with nothing behind it, nothing is read. */
  lemma NoScheme(text: string)
    requires !("ws://" < text) && !("wss://" < text) && !("http://" < text) && !("https://" < text)
    ensures Parsed(text) == Fields(false, false, "", "", "", 0, "")
  {
    hide Parsed, HasScheme;
    SchemeIs(text);
    ParsedNothing(text);
  }

  /** A bracket that is not closed, or is followed by something other than a port or a path, makes a URI invalid. */
  lemma BracketsInvalid(u: Fields, host: string, c: char, rest: string)
    requires ']' !in host && c != ':' && c != '/'
    ensures Authority(u, "[" + host) == u
    ensures Authority(u, "[" + host + [']'] + ([c] + rest)) == u.(host := host)
  {
    hide Authority, AfterHost, IndexOf;
    var open := "[" + host;
    AuthorityOfLiteral(u, open);
    IndexOfMissing(open, ']');
    var s := open + [']'] + ([c] + rest);
    AuthorityOfLiteral(u, s);
    IndexOfFound(open, ']', [c] + rest);
    assert s[1..|open|] == host && s[|open| + 1..] == [c] + rest;
    AfterHostIs(u.(host := host), [c] + rest);
  }

  /** The port is printed unless it is the one that the scheme stands for anyway. */
  lemma PrintsParts(u: Fields)
    requires u.valid && Printable(u)
    ensures var path := u.resource[1..];
            Printed(u) ==
            Form(Parts(u.scheme, None, false, u.host,
                       if u.port == (if u.scheme == "wss" || u.scheme == "https" then 443 else 80) then None
                       else Some(Digits(u.port)),
                       Some(path)))
  {
    hide Digits;
    var path := u.resource[1..];
    assert u.resource == "/" + path;
    if u.port == DefaultPort(u.secure) {
      RegroupHost(u.scheme, u.host, u.resource);
    } else {
      RegroupPort(u.scheme, u.host, Digits(u.port), u.resource);
    }
  }

  lemma RegroupHost(scheme: string, host: string, resource: string)
    ensures scheme + "://" + host + "" + resource == scheme + ("://" + (host + resource))
  {
  }

  lemma RegroupPort(scheme: string, host: string, port: string, resource: string)
    ensures scheme + "://" + host + (":" + port) + resource == scheme + ("://" + (host + (":" + (port + resource))))
  {
  }
}
