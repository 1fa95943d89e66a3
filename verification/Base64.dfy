/** Base64 (section 4 of RFC 4648): the buffer-by-buffer encoder and decoder, and what they compute. */
module Base64 {
  import opened Octets

  type sextet = x: int | 0 <= x < 64

  const UPPER := "ABCDEFGHIJKLMNOPQRSTUVWXYZ"
  const LOWER := "abcdefghijklmnopqrstuvwxyz"
  const FIGURES := "0123456789+/"

  const BASE64_CHARS: string := UPPER + LOWER + FIGURES

  /** `is_base64` */
  predicate IsBase64(c: char) {
    var n := c as int;
    n == 43 || 47 <= n <= 57 || 65 <= n <= 90 || 97 <= n <= 122
  }

  /** `base64_chars.find(c)` stored in an `unsigned char`: 255 when it is not found. */
  function Find(c: char): octet {
    FindFrom(c, 0)
  }

  function FindFrom(c: char, i: nat): octet
    requires i <= |BASE64_CHARS|
    decreases |BASE64_CHARS| - i
  {
    CharTable();
    if i == |BASE64_CHARS| then 255 else if BASE64_CHARS[i] == c then i else FindFrom(c, i + 1)
  }

  /** The alphabet as ranges of characters. */
  function CharAt(x: sextet): char {
    if x < 26 then (65 + x) as char
    else if x < 52 then (71 + x) as char
    else if x < 62 then (x - 4) as char
    else if x == 62 then '+' else '/'
  }

  /** The position of a character in the alphabet. */
  function SextetOf(c: char): sextet
    requires IsBase64(c)
  {
    var n := c as int;
    if n == 43 then 62 else if n == 47 then 63 else if n <= 57 then n + 4 else if n <= 90 then n - 65 else n - 71
  }

  lemma CharTable()
    ensures |BASE64_CHARS| == 64
    ensures forall x :: 0 <= x < 64 ==> BASE64_CHARS[x] == CharAt(x)
  {
    assert forall x :: 0 <= x < 26 ==> UPPER[x] == CharAt(x);
    assert forall x :: 0 <= x < 26 ==> LOWER[x] == CharAt(x + 26);
    assert forall x :: 0 <= x < 12 ==> FIGURES[x] == CharAt(x + 52);
  }

  lemma SextetRoundTrip(x: sextet)
    ensures IsBase64(CharAt(x)) && SextetOf(CharAt(x)) == x
  {
  }

  lemma CharRoundTrip(c: char)
    requires IsBase64(c)
    ensures CharAt(SextetOf(c)) == c
  {
  }

  lemma FindIsSextet(c: char)
    ensures IsBase64(c) ==> Find(c) == SextetOf(c)
    ensures !IsBase64(c) ==> Find(c) == 255
  {
    FindFromIsSextet(c, 0);
  }

  lemma {:induction false} FindFromIsSextet(c: char, i: nat)
    requires i <= 64 == |BASE64_CHARS|
    requires IsBase64(c) ==> i <= SextetOf(c)
    ensures IsBase64(c) ==> FindFrom(c, i) == SextetOf(c)
    ensures !IsBase64(c) ==> FindFrom(c, i) == 255
    decreases 64 - i
  {
    CharTable();
    hide BASE64_CHARS;
    if i < 64 {
      SextetRoundTrip(i);
      if IsBase64(c) { CharRoundTrip(c); }
      if BASE64_CHARS[i] != c { FindFromIsSextet(c, i + 1); }
    }
  }

  // ----- What RFC 4648 asks for -----

  /** 24 bits from three octets, as four sextets. */
  function ToSextets(a: octet, b: octet, c: octet): (g: seq<sextet>)
    ensures |g| == 4
  {
    var n := a * 65536 + b * 256 + c;
    [n / 262144, n / 4096 % 64, n / 64 % 64, n % 64]
  }

  /** 24 bits from four sextets, as three octets. */
  function ToOctets(w: sextet, x: sextet, y: sextet, z: sextet): (g: seq<octet>)
    ensures |g| == 3
  {
    var n := w * 262144 + x * 4096 + y * 64 + z;
    [n / 65536, n / 256 % 256, n % 256]
  }

  function Chars(g: seq<sextet>): (s: string)
    ensures |s| == |g| && forall i :: 0 <= i < |g| ==> s[i] == CharAt(g[i])
  {
    seq(|g|, i requires 0 <= i < |g| => CharAt(g[i]))
  }

  /** Groups of three octets; a shorter last group is filled with zero bits and padded with `=`. */
  function Encoding(s: seq<octet>): string {
    if s == [] then ""
    else if |s| == 1 then Chars(ToSextets(s[0], 0, 0)[..2]) + "=="
    else if |s| == 2 then Chars(ToSextets(s[0], s[1], 0)[..3]) + "="
    else Chars(ToSextets(s[0], s[1], s[2])) + Encoding(s[3..])
  }

  /** The alphabet characters at the front of a text; decoding stops at the first other one. */
  function Body(s: string): (b: string)
    ensures b <= s && forall c :: c in b ==> IsBase64(c)
    ensures b == s || !IsBase64(s[|b|])
  {
    if s == "" || !IsBase64(s[0]) then "" else
      var b := [s[0]] + Body(s[1..]);
      assert s == [s[0]] + s[1..];
      b
  }

  /** Groups of four characters; a last group of two or three gives one or two octets, and of one nothing. */
  function DecodingOf(b: string): seq<octet>
    requires forall c :: c in b ==> IsBase64(c)
  {
    if |b| < 2 then []
    else if |b| == 2 then ToOctets(SextetOf(b[0]), SextetOf(b[1]), 0, 0)[..1]
    else if |b| == 3 then ToOctets(SextetOf(b[0]), SextetOf(b[1]), SextetOf(b[2]), 0)[..2]
    else ToOctets(SextetOf(b[0]), SextetOf(b[1]), SextetOf(b[2]), SextetOf(b[3])) + DecodingOf(b[4..])
  }

  function Decoding(s: string): seq<octet> {
    DecodingOf(Body(s))
  }

  // ----- The encoder -----

  method FillSextets(c3: array<octet>, c4: array<octet>)
    requires c3.Length == 3 && c4.Length == 4
    modifies c4
    ensures c4[..] == ToSextets(c3[0], c3[1], c3[2])
  {
    c4[0] := c3[0] / 4;
    c4[1] := c3[0] % 4 * 16 + c3[1] / 16;
    c4[2] := c3[1] % 16 * 4 + c3[2] / 64;
    c4[3] := c3[2] % 64;
    SextetArithmetic(c3[0], c3[1], c3[2]);
  }

  lemma SextetArithmetic(a: octet, b: octet, c: octet)
    ensures ToSextets(a, b, c) == [a / 4, a % 4 * 16 + b / 16, b % 16 * 4 + c / 64, c % 64]
  {
    var n := a * 65536 + b * 256 + c;
    Quotient(n, 262144, a / 4, a % 4 * 65536 + b * 256 + c);
    Quotient(n, 4096, a * 16 + b / 16, b % 16 * 256 + c);
    Quotient(n, 64, a * 1024 + b * 4 + c / 64, c % 64);
    Quotient(a * 16 + b / 16, 64, a / 4, a % 4 * 16 + b / 16);
    Quotient(a * 1024 + b * 4 + c / 64, 64, a * 16 + b / 16, b % 16 * 4 + c / 64);
  }

  lemma Quotient(n: nat, d: nat, q: nat, r: nat)
    requires d == 64 || d == 256 || d == 4096 || d == 65536 || d == 262144
    requires r < d && n == d * q + r
    ensures n / d == q && n % d == r
  {
    if d == 64 {
    } else if d == 256 {
    } else if d == 4096 {
    } else if d == 65536 {
    } else {
    }
  }

  /** `base64_encode` */
  method Encode(input: seq<octet>) returns (ret: string)
    ensures ret == Encoding(input)
  {
    hide *;
    ret := "";
    var i := 0;
    var c3, c4 := new octet[3](_ => 0), new octet[4](_ => 0);
    assert input[0..] == input;
    for k := 0 to |input|
      invariant 0 <= i < 3 && i <= k
      invariant forall j :: 0 <= j < i ==> c3[j] == input[k - i + j]
      invariant ret + Encoding(input[k - i..]) == Encoding(input)
    {
      c3[i] := input[k];
      i := i + 1;
      if i == 3 {
        EncodingOfGroup(input, k - 2);
        var group := EncodeGroup(c3, c4);
        assert group == Chars(ToSextets(input[k - 2], input[k - 1], input[k]));
        Append(ret, group, Encoding(input[k + 1..]), Encoding(input[k - 2..]), Encoding(input));
        ret := ret + group;
        i := 0;
      }
    }
    if i != 0 {
      var rest := EncodeRest(c3, c4, input[|input| - i..], i);
      ret := ret + rest;
    } else {
      EncodingOfNothing(input[|input|..]);
    }
  }

  /** A full group of three octets, as four characters. */
  method EncodeGroup(c3: array<octet>, c4: array<octet>) returns (ret: string)
    requires c3.Length == 3 && c4.Length == 4
    modifies c4
    ensures ret == Chars(ToSextets(c3[0], c3[1], c3[2]))
  {
    hide ToSextets, Chars, BASE64_CHARS;
    CharTable();
    FillSextets(c3, c4);
    ret := "";
    ghost var group := ToSextets(c3[0], c3[1], c3[2]);
    for m := 0 to 4
      invariant ret == Chars(group)[..m]
    {
      assert c4[m] == c4[..][m];
      ret := ret + [BASE64_CHARS[c4[m]]];
    }
  }

  /** The shorter last group: zero bits, then padding characters. */
  method EncodeRest(c3: array<octet>, c4: array<octet>, ghost t: seq<octet>, n: nat) returns (ret: string)
    requires c3.Length == 3 && c4.Length == 4
    requires 1 <= |t| == n <= 2
    requires forall m :: 0 <= m < n ==> c3[m] == t[m]
    modifies c3, c4
    ensures ret == Encoding(t)
  {
    hide ToSextets, Chars, BASE64_CHARS, Encoding;
    EncodingOfRest(t);
    CharTable();
    ret := "";
    for j := n to 3
      invariant forall m :: 0 <= m < n ==> c3[m] == t[m]
      invariant forall m :: n <= m < j ==> c3[m] == 0
    {
      c3[j] := 0;
    }
    FillSextets(c3, c4);
    ghost var group := ToSextets(c3[0], c3[1], c3[2]);
    for j := 0 to n + 1
      invariant ret == Chars(group)[..j]
    {
      assert c4[j] == c4[..][j];
      ret := ret + [BASE64_CHARS[c4[j]]];
    }
    var i: nat := n;
    ghost var padded := ret + "==="[n..];
    while i < 3
      invariant n <= i <= 3
      invariant ret + "==="[i..] == padded
    {
      ret := ret + "=";
      i := i + 1;
    }
  }

  lemma Append<T>(done: seq<T>, group: seq<T>, rest: seq<T>, before: seq<T>, all: seq<T>)
    requires done + before == all && before == group + rest
    ensures done + group + rest == all
  {
  }

  lemma EncodingOfNothing(t: seq<octet>)
    requires t == []
    ensures Encoding(t) == ""
  {
  }

  lemma EncodingOfGroup(s: seq<octet>, k: nat)
    requires k + 3 <= |s|
    ensures Encoding(s[k..]) == Chars(ToSextets(s[k], s[k + 1], s[k + 2])) + Encoding(s[k + 3..])
  {
    hide ToSextets, Chars;
    assert s[k..][3..] == s[k + 3..];
  }

  lemma EncodingOfRest(t: seq<octet>)
    requires 1 <= |t| <= 2
    ensures Encoding(t) ==
            Chars(ToSextets(t[0], if |t| == 2 then t[1] else 0, 0))[..|t| + 1] + "==="[|t|..]
  {
    hide ToSextets, Chars;
    assert "==="[1..] == "==" && "==="[2..] == "=";
  }

  // ----- The decoder -----

  /** The octets that the code makes of adjacent table positions, in eight bits each. */
  function FirstOctet(w: octet, x: octet): octet {
    (w as int * 4 + x / 16 % 4) % 256
  }

  function SecondOctet(x: octet, y: octet): octet {
    (x as int % 16 * 16 + y / 4 % 16) % 256
  }

  function ThirdOctet(y: octet, z: octet): octet {
    (y as int % 4 * 64 + z) % 256
  }

  /** The three octets computed from four table positions, one of which may be the 255 of `find`. */
  method FillOctets(c4: array<octet>, c3: array<octet>)
    requires c4.Length == 4 && c3.Length == 3
    modifies c3
    ensures c4[0] < 64 && c4[1] < 64 ==> c3[0] == ToOctets(c4[0], c4[1], 0, 0)[0]
    ensures c4[0] < 64 && c4[1] < 64 && c4[2] < 64 ==> c3[..2] == ToOctets(c4[0], c4[1], c4[2], 0)[..2]
    ensures (forall i :: 0 <= i < 4 ==> c4[i] < 64) ==> c3[..] == ToOctets(c4[0], c4[1], c4[2], c4[3])
  {
    hide *;
    c3[0] := FirstOctet(c4[0], c4[1]);
    c3[1] := SecondOctet(c4[1], c4[2]);
    c3[2] := ThirdOctet(c4[2], c4[3]);
    if c4[0] < 64 && c4[1] < 64 {
      OctetArithmetic(c4[0], c4[1], 0, 0);
      if c4[2] < 64 {
        OctetArithmetic(c4[0], c4[1], c4[2], 0);
        if c4[3] < 64 { OctetArithmetic(c4[0], c4[1], c4[2], c4[3]); }
      }
    }
  }

  lemma OctetsFit(w: sextet, x: sextet, y: sextet, z: sextet)
    ensures FirstOctet(w, x) == w * 4 + x / 16
    ensures SecondOctet(x, y) == x % 16 * 16 + y / 4
    ensures ThirdOctet(y, z) == y % 4 * 64 + z
  {
    hide FirstOctet, SecondOctet, ThirdOctet;
    FirstFits(w, x);
    SecondFits(x, y);
    ThirdFits(y, z);
  }

  lemma FirstFits(w: sextet, x: sextet)
    ensures FirstOctet(w, x) == w * 4 + x / 16
  {
    assert x / 16 % 4 == x / 16;
    Below(w * 4 + x / 16);
  }

  lemma SecondFits(x: sextet, y: sextet)
    ensures SecondOctet(x, y) == x % 16 * 16 + y / 4
  {
    assert y / 4 % 16 == y / 4;
    Below(x % 16 * 16 + y / 4);
  }

  lemma ThirdFits(y: sextet, z: sextet)
    ensures ThirdOctet(y, z) == y % 4 * 64 + z
  {
    Below(y % 4 * 64 + z);
  }

  lemma Below(n: nat)
    requires n < 256
    ensures n % 256 == n
  {
  }

  lemma OctetArithmetic(w: sextet, x: sextet, y: sextet, z: sextet)
    ensures ToOctets(w, x, y, z) == [FirstOctet(w, x), SecondOctet(x, y), ThirdOctet(y, z)]
  {
    OctetsFit(w, x, y, z);
    hide FirstOctet, SecondOctet, ThirdOctet;
    var n := w * 262144 + x * 4096 + y * 64 + z;
    assert n == 65536 * (w * 4 + x / 16) + (x % 16 * 4096 + y * 64 + z);
    assert n == 256 * (w * 1024 + x * 16 + y / 4) + (y % 4 * 64 + z);
    Quotient(n, 65536, w * 4 + x / 16, x % 16 * 4096 + y * 64 + z);
    Quotient(n, 256, w * 1024 + x * 16 + y / 4, y % 4 * 64 + z);
    Quotient(n / 256, 256, w * 4 + x / 16, x % 16 * 16 + y / 4);
  }

  /** Replaces the characters `b` in `c4` by their table positions and gives all but one of the octets they fill. */
  method DecodeGroup(c4: array<octet>, c3: array<octet>, ghost b: string, n: nat) returns (ret: seq<octet>)
    requires c4.Length == 4 && c3.Length == 3
    requires |b| == n + 1 <= 4
    requires forall c :: c in b ==> IsBase64(c)
    requires forall m :: 0 <= m <= n ==> c4[m] == b[m] as int
    modifies c4, c3
    ensures ret == DecodingOf(b)
  {
    hide *;
    ghost var was := c4[..];
    for j := 0 to 4
      invariant forall m :: 0 <= m < j ==> c4[m] == Find(was[m] as char)
      invariant forall m :: j <= m < 4 ==> c4[m] == was[m]
    {
      c4[j] := Find(c4[j] as char);
    }
    forall m | 0 <= m <= n
      ensures c4[m] == SextetOf(b[m]) && c4[m] < 64
    {
      FindIsSextet(b[m]);
    }
    FillOctets(c4, c3);
    DecodingOfRest(b);
    ret := [];
    for j := 0 to n
      invariant ret == c3[..j]
    {
      ret := ret + [c3[j]];
    }
    if n == 1 { OnlyFirst(c4[0], c4[1], c3[..n]); }
    assert n == 3 ==> c3[..n] == c3[..];
  }

  lemma OnlyFirst(w: sextet, x: sextet, t: seq<octet>)
    requires |t| == 1 && t[0] == ToOctets(w, x, 0, 0)[0]
    ensures t == ToOctets(w, x, 0, 0)[..1]
  {
  }

  lemma DecodingOfRest(b: string)
    requires forall c :: c in b ==> IsBase64(c)
    requires 1 <= |b| <= 4
    ensures |b| == 1 ==> DecodingOf(b) == []
    ensures |b| == 2 ==> DecodingOf(b) == ToOctets(SextetOf(b[0]), SextetOf(b[1]), 0, 0)[..1]
    ensures |b| == 3 ==> DecodingOf(b) == ToOctets(SextetOf(b[0]), SextetOf(b[1]), SextetOf(b[2]), 0)[..2]
    ensures |b| == 4 ==> DecodingOf(b) == ToOctets(SextetOf(b[0]), SextetOf(b[1]), SextetOf(b[2]), SextetOf(b[3]))
  {
    hide ToOctets, SextetOf, IsBase64;
    if |b| == 4 { assert DecodingOf(b[4..]) == []; }
  }

  lemma DecodingOfGroup(b: string)
    requires forall c :: c in b ==> IsBase64(c)
    requires |b| >= 4
    ensures DecodingOf(b) == DecodingOf(b[..4]) + DecodingOf(b[4..])
  {
    hide ToOctets, SextetOf, IsBase64;
    DecodingOfRest(b[..4]);
  }

  lemma BodyBound(s: string, k: nat)
    requires k <= |Body(s)|
    ensures k < |Body(s)| <==> k < |s| && s[k] != '=' && IsBase64(s[k])
  {
    hide Body;
    if k < |Body(s)| {
      assert Body(s)[k] in Body(s);
      assert !IsBase64('=');
    }
  }

  /** `base64_decode` */
  method Decode(input: string) returns (ret: seq<octet>)
    ensures ret == Decoding(input)
  {
    hide *;
    DecodingIs(input);
    ret := [];
    var i, k := 0, 0;
    ghost var from := 0;
    var c4, c3 := new octet[4](_ => 0), new octet[3](_ => 0);
    ghost var body := Body(input);
    BodyBound(input, 0);
    assert body[0..] == body;
    while k < |input| && input[k] != '=' && IsBase64(input[k])
      invariant 0 <= i < 4 && from + i == k <= |body|
      invariant k < |body| <==> k < |input| && input[k] != '=' && IsBase64(input[k])
      invariant forall j :: 0 <= j < i ==> c4[j] == body[from + j] as int
      invariant ret + DecodingOf(body[from..]) == DecodingOf(body)
    {
      assert (input[k] as int) < 256 by { Narrow(input[k]); }
      c4[i] := input[k] as int;
      BodyBound(input, k + 1);
      i, k := i + 1, k + 1;
      if i == 4 {
        GroupAt(body, from);
        var group := DecodeGroup(c4, c3, body[from..k], 3);
        Append(ret, group, DecodingOf(body[k..]), DecodingOf(body[from..]), DecodingOf(body));
        ret := ret + group;
        i, from := 0, k;
      }
    }
    if i != 0 {
      SuffixIsBase64(body, from);
      var group := DecodeLast(c4, c3, body[from..], i);
      ret := ret + group;
    } else {
      DecodingOfNothing(body[k..]);
    }
  }

  /** The last group, filled up with zeros. */
  method DecodeLast(c4: array<octet>, c3: array<octet>, ghost b: string, i: nat) returns (ret: seq<octet>)
    requires c4.Length == 4 && c3.Length == 3
    requires 0 < i == |b| < 4 && forall c :: c in b ==> IsBase64(c)
    requires forall m :: 0 <= m < i ==> c4[m] == b[m] as int
    modifies c4, c3
    ensures ret == DecodingOf(b)
  {
    hide *;
    for j := i to 4
      invariant forall m :: 0 <= m < i ==> c4[m] == b[m] as int
    {
      c4[j] := 0;
    }
    ret := DecodeGroup(c4, c3, b, i - 1);
  }

  lemma SuffixIsBase64(body: string, k: nat)
    requires k <= |body| && forall c :: c in body ==> IsBase64(c)
    ensures forall c :: c in body[k..] ==> IsBase64(c)
  {
  }

  lemma GroupAt(body: string, k: nat)
    requires k + 4 <= |body| && forall c :: c in body ==> IsBase64(c)
    ensures forall c :: c in body[k..] ==> IsBase64(c)
    ensures forall c :: c in body[k..k + 4] ==> IsBase64(c)
    ensures forall c :: c in body[k + 4..] ==> IsBase64(c)
    ensures DecodingOf(body[k..]) == DecodingOf(body[k..k + 4]) + DecodingOf(body[k + 4..])
  {
    hide IsBase64, DecodingOf;
    DecodingOfGroup(body[k..]);
    assert body[k..][..4] == body[k..k + 4] && body[k..][4..] == body[k + 4..];
  }

  lemma DecodingOfNothing(b: string)
    requires b == ""
    ensures DecodingOf(b) == []
  {
  }

  lemma Narrow(c: char)
    requires IsBase64(c)
    ensures (c as int) < 256
  {
  }

  // ----- Round trips -----

  lemma OctetsOfSextets(a: octet, b: octet, c: octet)
    ensures var g := ToSextets(a, b, c);
            ToOctets(g[0], g[1], g[2], g[3]) == [a, b, c]
  {
    SextetArithmetic(a, b, c);
    hide ToSextets;
    var w, x, y, z := a / 4, a % 4 * 16 + b / 16, b % 16 * 4 + c / 64, c % 64;
    assert ToSextets(a, b, c) == [w, x, y, z];
    OctetArithmetic(w, x, y, z);
    OctetsFit(w, x, y, z);
    hide *;
    Quotient16(a % 4, b / 16);
    Quotient4(b % 16, c / 64);
  }

  lemma Quotient16(q: nat, r: nat)
    requires r < 16
    ensures (q * 16 + r) / 16 == q && (q * 16 + r) % 16 == r
  {
  }

  lemma Quotient4(q: nat, r: nat)
    requires r < 4
    ensures (q * 4 + r) / 4 == q && (q * 4 + r) % 4 == r
  {
  }

  lemma SextetsOfOctets(w: sextet, x: sextet, y: sextet, z: sextet)
    ensures var g := ToOctets(w, x, y, z);
            ToSextets(g[0], g[1], g[2]) == [w, x, y, z]
  {
    OctetArithmetic(w, x, y, z);
    OctetsFit(w, x, y, z);
    hide ToOctets, FirstOctet, SecondOctet, ThirdOctet;
    var a, b, c := w * 4 + x / 16, x % 16 * 16 + y / 4, y % 4 * 64 + z;
    assert ToOctets(w, x, y, z) == [a, b, c];
    SextetArithmetic(a, b, c);
    hide *;
    Quotient4(w, x / 16);
    Quotient16(x % 16, y / 4);
    Quotient(c, 64, y % 4, z);
  }

  /** Reading stops after alphabet characters exactly where it would stop without them. */
  lemma {:induction false} BodyOfPrefix(p: string, t: string)
    requires forall c :: c in p ==> IsBase64(c)
    ensures Body(p + t) == p + Body(t)
  {
    hide IsBase64;
    if p == "" {
      assert p + t == t;
    } else {
      assert p[0] in p;
      assert (p + t)[1..] == p[1..] + t;
      BodyOfPrefix(p[1..], t);
      assert p == [p[0]] + p[1..];
    }
  }

  lemma DecodingOfPrefix(p: string, t: string)
    requires |p| == 4 && forall c :: c in p ==> IsBase64(c)
    ensures Decoding(p + t) ==
            ToOctets(SextetOf(p[0]), SextetOf(p[1]), SextetOf(p[2]), SextetOf(p[3])) + Decoding(t)
  {
    BodyOfPrefix(p, t);
    hide Body, DecodingOf, ToOctets, IsBase64, SextetOf;
    var b := Body(p + t);
    assert b[..4] == p && b[4..] == Body(t);
    DecodingOfGroup(b);
    DecodingOfRest(p);
  }

  lemma DecodingOfPadded(p: string, pad: string)
    requires 2 <= |p| <= 3 && forall c :: c in p ==> IsBase64(c)
    requires |pad| > 0 && pad[0] == '='
    ensures |p| == 2 ==> Decoding(p + pad) == ToOctets(SextetOf(p[0]), SextetOf(p[1]), 0, 0)[..1]
    ensures |p| == 3 ==> Decoding(p + pad) == ToOctets(SextetOf(p[0]), SextetOf(p[1]), SextetOf(p[2]), 0)[..2]
  {
    BodyOfPrefix(p, pad);
    assert Body(pad) == "" by { assert !IsBase64('='); }
    hide Body, DecodingOf, ToOctets, IsBase64, SextetOf;
    assert Body(p + pad) == p;
    DecodingOfRest(p);
  }

  /** The characters of a group are in the alphabet and stand for its sextets. */
  lemma CharsAreBase64(g: seq<sextet>)
    ensures forall c :: c in Chars(g) ==> IsBase64(c)
    ensures forall i :: 0 <= i < |g| ==> IsBase64(Chars(g)[i]) && SextetOf(Chars(g)[i]) == g[i]
  {
    hide Chars, IsBase64, SextetOf, CharAt;
    forall i | 0 <= i < |g|
      ensures IsBase64(Chars(g)[i]) && SextetOf(Chars(g)[i]) == g[i]
    {
      SextetRoundTrip(g[i]);
    }
  }

  /** Four characters for every three octets or part of three. */
  lemma {:induction false} EncodedLength(s: seq<octet>)
    ensures |Encoding(s)| == 4 * ((|s| + 2) / 3)
    decreases |s|
  {
    hide ToSextets;
    if |s| >= 3 {
      EncodedLength(s[3..]);
      assert (|s| + 2) / 3 == (|s| - 1) / 3 + 1;
    }
  }

  /** Decoding gives back every octet string that was encoded. */
  lemma {:induction false} DecodeEncode(s: seq<octet>)
    ensures Decoding(Encoding(s)) == s
    decreases |s|
  {
    hide *;
    if s == [] {
      EncodingOfNothing(s);
      BodyBound("", 0);
      DecodingOfNothing(Body(""));
      DecodingIs("");
    } else if |s| < 3 {
      DecodeEncodeRest(s);
    } else {
      EncodingOfGroup(s, 0);
      assert s[0..] == s;
      var g := ToSextets(s[0], s[1], s[2]);
      CharsAreBase64(g);
      DecodingOfPrefix(Chars(g), Encoding(s[3..]));
      OctetsOfSextets(s[0], s[1], s[2]);
      DecodeEncode(s[3..]);
      assert s == [s[0], s[1], s[2]] + s[3..];
    }
  }

  lemma DecodingIs(s: string)
    ensures Decoding(s) == DecodingOf(Body(s))
  {
  }

  lemma DecodeEncodeRest(s: seq<octet>)
    requires 1 <= |s| <= 2
    ensures Decoding(Encoding(s)) == s
  {
    hide *;
    EncodingOfRest(s);
    var b := if |s| == 2 then s[1] else 0;
    var g := ToSextets(s[0], b, 0);
    CharsAreBase64(g);
    var p := Chars(g)[..|s| + 1];
    DecodingOfPadded(p, "==="[|s|..]);
    OctetsOfSextets(s[0], b, 0);
    LastSextets(s[0], b);
    if |s| == 1 {
      assert s == [s[0], 0, 0][..1];
    } else {
      assert s == [s[0], s[1], 0][..2];
    }
  }

  /** The sextets that padding leaves out carry no bits of the octets in front of it. */
  lemma LastSextets(a: octet, b: octet)
    ensures ToSextets(a, b, 0)[3] == 0 && ToSextets(a, b, 0)[2] % 4 == 0
    ensures b == 0 ==> ToSextets(a, b, 0)[2] == 0 && ToSextets(a, b, 0)[1] % 16 == 0
  {
    SextetArithmetic(a, b, 0);
    hide ToSextets;
  }

  /** Whole groups of alphabet characters, the last of which may be padded if its unused bits are zero. */
  predicate Canonical(s: string)
    decreases |s|
  {
    s == "" ||
    (&& |s| >= 4 && IsBase64(s[0]) && IsBase64(s[1])
     && if IsBase64(s[2]) && IsBase64(s[3]) then Canonical(s[4..])
        else if IsBase64(s[2]) then s[3..] == "=" && SextetOf(s[2]) % 4 == 0
        else s[2..] == "==" && SextetOf(s[1]) % 16 == 0)
  }

  lemma {:induction false} EncodingIsCanonical(s: seq<octet>)
    ensures Canonical(Encoding(s))
    decreases |s|
  {
    hide Encoding, ToSextets, Chars, IsBase64, SextetOf, CharAt;
    if s == [] {
      EncodingOfNothing(s);
    } else if |s| < 3 {
      EncodingOfRest(s);
      var g := ToSextets(s[0], if |s| == 2 then s[1] else 0, 0);
      CharsAreBase64(g);
      LastSextets(s[0], if |s| == 2 then s[1] else 0);
      assert !IsBase64('=') by { PaddingIsNotBase64(); }
      assert Encoding(s)[|s| + 1..] == "==="[|s|..];
    } else {
      EncodingOfGroup(s, 0);
      assert s[0..] == s;
      var g := ToSextets(s[0], s[1], s[2]);
      CharsAreBase64(g);
      EncodingIsCanonical(s[3..]);
      assert Encoding(s)[4..] == Encoding(s[3..]);
    }
  }

  lemma PaddingIsNotBase64()
    ensures !IsBase64('=')
  {
  }

  lemma CharsOfSextets(p: string, g: seq<sextet>)
    requires |p| == |g| && forall c :: c in p ==> IsBase64(c)
    requires forall i :: 0 <= i < |p| ==> SextetOf(p[i]) == g[i]
    ensures Chars(g) == p
  {
    hide Chars, IsBase64, SextetOf, CharAt;
    forall i | 0 <= i < |p|
      ensures CharAt(g[i]) == p[i]
    {
      CharRoundTrip(p[i]);
    }
  }

  lemma {:induction false} CanonicalRoundTrip(s: string)
    requires Canonical(s)
    ensures Encoding(Decoding(s)) == s
    decreases |s|
  {
    hide Encoding, Decoding, DecodingOf, ToOctets, ToSextets, Chars, IsBase64, SextetOf, CharAt;
    if s == "" {
      DecodingIs("");
      DecodingOfNothing(Body(""));
      EncodingOfNothing([]);
    } else if IsBase64(s[2]) && IsBase64(s[3]) {
      var p := s[..4];
      assert s == p + s[4..];
      var g := ToOctets(SextetOf(p[0]), SextetOf(p[1]), SextetOf(p[2]), SextetOf(p[3]));
      DecodingOfPrefix(p, s[4..]);
      CanonicalRoundTrip(s[4..]);
      SextetsOfOctets(SextetOf(p[0]), SextetOf(p[1]), SextetOf(p[2]), SextetOf(p[3]));
      CharsOfSextets(p, ToSextets(g[0], g[1], g[2]));
      EncodingOfJoin(g, Decoding(s[4..]));
    } else if IsBase64(s[2]) {
      TwoOctetRoundTrip(s);
    } else {
      OneOctetRoundTrip(s);
    }
  }

  lemma EncodingOfJoin(g: seq<octet>, t: seq<octet>)
    requires |g| == 3
    ensures Encoding(g + t) == Chars(ToSextets(g[0], g[1], g[2])) + Encoding(t)
  {
    hide *;
    EncodingOfGroup(g + t, 0);
    assert (g + t)[0..] == g + t && (g + t)[3..] == t;
  }

  lemma TwoOctetRoundTrip(s: string)
    requires |s| == 4 && IsBase64(s[0]) && IsBase64(s[1]) && IsBase64(s[2]) && s[3..] == "="
    requires SextetOf(s[2]) % 4 == 0
    ensures Encoding(Decoding(s)) == s
  {
    hide *;
    var p := s[..3];
    assert s == p + "=";
    DecodingOfPadded(p, "=");
    var w, x, y := SextetOf(p[0]), SextetOf(p[1]), SextetOf(p[2]);
    var g := ToOctets(w, x, y, 0);
    UnusedOctets(w, x, y);
    SextetsOfOctets(w, x, y, 0);
    EncodingOfRest(g[..2]);
    CharsOfSextets(p, [w, x, y]);
    CharsPrefix([w, x, y, 0], 3);
    assert [w, x, y, 0][..3] == [w, x, y];
    assert "==="[2..] == "=";
  }

  lemma OneOctetRoundTrip(s: string)
    requires |s| == 4 && IsBase64(s[0]) && IsBase64(s[1]) && s[2..] == "=="
    requires SextetOf(s[1]) % 16 == 0
    ensures Encoding(Decoding(s)) == s
  {
    hide *;
    var p := s[..2];
    assert s == p + "==";
    DecodingOfPadded(p, "==");
    var w, x := SextetOf(p[0]), SextetOf(p[1]);
    var g := ToOctets(w, x, 0, 0);
    UnusedOctets(w, x, 0);
    SextetsOfOctets(w, x, 0, 0);
    EncodingOfRest(g[..1]);
    CharsOfSextets(p, [w, x]);
    CharsPrefix([w, x, 0, 0], 2);
    assert [w, x, 0, 0][..2] == [w, x];
    assert "==="[1..] == "==";
  }

  lemma UnusedOctets(w: sextet, x: sextet, y: sextet)
    ensures y % 4 == 0 ==> ToOctets(w, x, y, 0)[2] == 0
    ensures y == 0 && x % 16 == 0 ==> ToOctets(w, x, y, 0)[1] == 0
  {
    OctetArithmetic(w, x, y, 0);
    OctetsFit(w, x, y, 0);
    hide ToOctets;
  }

  lemma CharsPrefix(g: seq<sextet>, n: nat)
    requires n <= |g|
    ensures Chars(g)[..n] == Chars(g[..n])
  {
    hide Chars, CharAt;
  }

  /** Encoding gives back exactly the canonically padded texts. */
  lemma EncodeDecode(s: string)
    ensures Encoding(Decoding(s)) == s <==> Canonical(s)
  {
    hide *;
    EncodingIsCanonical(Decoding(s));
    if Canonical(s) { CanonicalRoundTrip(s); }
  }

  // ----- The code, by the numbers of its characters -----

  /** Capital letters count from 0, small ones from 26, figures from 52; plus is 62, slash 63, and nothing else counts. */
  function Letter(c: char): int {
    if 'A' <= c <= 'Z' then c as int - 65
    else if 'a' <= c <= 'z' then c as int - 97 + 26
    else if '0' <= c <= '9' then c as int - 48 + 52
    else if c == '+' then 62
    else if c == '/' then 63
    else -1
  }

  lemma LettersAre(c: char)
    ensures IsBase64(c) <==> Letter(c) >= 0
    ensures IsBase64(c) ==> Letter(c) == SextetOf(c)
  {
  }

  lemma CharLetter(x: sextet)
    ensures Letter(CharAt(x)) == x
  {
  }

  lemma SextetsSum(a: octet, b: octet, c: octet)
    ensures var g: seq<int> := ToSextets(a, b, c);
            g[0] * 262144 + g[1] * 4096 + g[2] * 64 + g[3] == a * 65536 + b * 256 + c
  {
    SextetArithmetic(a, b, c);
    hide ToSextets;
  }

  lemma OctetsSum(w: sextet, x: sextet, y: sextet, z: sextet)
    ensures var g: seq<int> := ToOctets(w, x, y, z);
            g[0] * 65536 + g[1] * 256 + g[2] == w * 262144 + x * 4096 + y * 64 + z
  {
    OctetArithmetic(w, x, y, z);
    OctetsFit(w, x, y, z);
    hide ToOctets, FirstOctet, SecondOctet, ThirdOctet;
  }

  /** Three octets are written as four characters that carry the same 24 bits, in front of what follows them. */
  lemma EncodesGroup(a: octet, b: octet, c: octet, rest: seq<octet>)
    ensures var s := Encoding([a, b, c] + rest);
            && |s| >= 4 && s[4..] == Encoding(rest)
            && (forall i :: 0 <= i < 4 ==> Letter(s[i]) >= 0)
            && Letter(s[0]) * 262144 + Letter(s[1]) * 4096 + Letter(s[2]) * 64 + Letter(s[3]) == a * 65536 + b * 256 + c
  {
    var g := ToSextets(a, b, c);
    CharLetter(g[0]);
    CharLetter(g[1]);
    CharLetter(g[2]);
    CharLetter(g[3]);
    SextetsSum(a, b, c);
    EncodingOfJoin([a, b, c], rest);
    hide ToSextets, Letter, CharAt, Encoding;
  }

  lemma OneOctetBits(a: octet)
    ensures (a / 4) * 64 + a % 4 * 16 == a * 16
  {
  }

  lemma TwoOctetBits(a: octet, b: octet)
    ensures (a / 4) * 4096 + (a % 4 * 16 + b / 16) * 64 + b % 16 * 4 == (a * 256 + b) * 4
  {
  }

  lemma OneOctetText(a: octet)
    ensures var g := ToSextets(a, 0, 0);
            Encoding([a]) == [CharAt(g[0]), CharAt(g[1]), '=', '=']
  {
    hide ToSextets, CharAt;
  }

  lemma TwoOctetText(a: octet, b: octet)
    ensures var g := ToSextets(a, b, 0);
            Encoding([a, b]) == [CharAt(g[0]), CharAt(g[1]), CharAt(g[2]), '=']
  {
    hide ToSextets, CharAt;
  }

  /** A last octet is written as two characters, filled up with zero bits, and two signs of padding. */
  lemma EncodesOne(a: octet)
    ensures var s := Encoding([a]);
            && |s| == 4 && s[2] == '=' && s[3] == '=' && Letter(s[0]) >= 0 && Letter(s[1]) >= 0
            && Letter(s[0]) * 64 + Letter(s[1]) == a * 16
  {
    var g := ToSextets(a, 0, 0);
    SextetArithmetic(a, 0, 0);
    hide *;
    OneOctetText(a);
    CharLetter(g[0]);
    CharLetter(g[1]);
    OneOctetBits(a);
  }

  /** Two last octets are written as three characters and one sign of padding. */
  lemma EncodesTwo(a: octet, b: octet)
    ensures var s := Encoding([a, b]);
            && |s| == 4 && s[3] == '=' && Letter(s[0]) >= 0 && Letter(s[1]) >= 0 && Letter(s[2]) >= 0
            && Letter(s[0]) * 4096 + Letter(s[1]) * 64 + Letter(s[2]) == (a * 256 + b) * 4
  {
    var g := ToSextets(a, b, 0);
    SextetArithmetic(a, b, 0);
    hide *;
    TwoOctetText(a, b);
    CharLetter(g[0]);
    CharLetter(g[1]);
    CharLetter(g[2]);
    TwoOctetBits(a, b);
  }

  /** Four characters of the alphabet are read as three octets that carry the same 24 bits, in front of what follows them. */
  lemma DecodesGroup(g: string, rest: string)
    requires |g| == 4 && forall i :: 0 <= i < 4 ==> Letter(g[i]) >= 0
    ensures var s := Decoding(g + rest);
            && |s| >= 3 && s[3..] == Decoding(rest)
            && (s[0] as int) * 65536 + (s[1] as int) * 256 + s[2]
               == Letter(g[0]) * 262144 + Letter(g[1]) * 4096 + Letter(g[2]) * 64 + Letter(g[3])
  {
    forall c | c in g
      ensures IsBase64(c)
    {
      LettersAre(c);
    }
    LettersAre(g[0]);
    LettersAre(g[1]);
    LettersAre(g[2]);
    LettersAre(g[3]);
    hide Letter, IsBase64, SextetOf, ToOctets, Decoding;
    OctetsSum(SextetOf(g[0]), SextetOf(g[1]), SextetOf(g[2]), SextetOf(g[3]));
    DecodingOfPrefix(g, rest);
  }

  /** Up to three characters in front of one that is not in the alphabet, or at the end: their bits but for the odd last ones. */
  lemma DecodesEnd(p: string, rest: string)
    requires |p| <= 3 && (forall i :: 0 <= i < |p| ==> Letter(p[i]) >= 0) && (rest != "" ==> Letter(rest[0]) < 0)
    ensures var s: seq<int> := Decoding(p + rest);
            && |s| == (if |p| == 0 then 0 else |p| - 1)
            && (|p| == 2 ==> s[0] == (Letter(p[0]) * 64 + Letter(p[1])) / 16)
            && (|p| == 3 ==> s[0] * 256 + s[1] == (Letter(p[0]) * 4096 + Letter(p[1]) * 64 + Letter(p[2])) / 4)
  {
    forall c | c in p
      ensures IsBase64(c)
    {
      LettersAre(c);
    }
    if rest != "" { LettersAre(rest[0]); }
    BodyStops(p, rest);
    DecodingIs(p + rest);
    if |p| == 2 {
      LettersAre(p[0]);
      LettersAre(p[1]);
      OctetArithmetic(SextetOf(p[0]), SextetOf(p[1]), 0, 0);
      OctetsFit(SextetOf(p[0]), SextetOf(p[1]), 0, 0);
    } else if |p| == 3 {
      LettersAre(p[0]);
      LettersAre(p[1]);
      LettersAre(p[2]);
      OctetArithmetic(SextetOf(p[0]), SextetOf(p[1]), SextetOf(p[2]), 0);
      OctetsFit(SextetOf(p[0]), SextetOf(p[1]), SextetOf(p[2]), 0);
    }
    hide Letter, IsBase64, SextetOf, ToOctets, Decoding, Body, FirstOctet, SecondOctet, ThirdOctet;
  }

  lemma BodyStops(p: string, rest: string)
    requires (forall c :: c in p ==> IsBase64(c)) && (rest != "" ==> !IsBase64(rest[0]))
    ensures Body(p + rest) == p
  {
    BodyOfPrefix(p, rest);
    hide IsBase64;
    assert Body(rest) == "";
  }
}
