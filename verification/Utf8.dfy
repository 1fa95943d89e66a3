/**
 The table-driven UTF-8 decoder: one step of the automaton, the streaming validator built on it,
 and the proof that it accepts exactly the texts that sections 3 and 4 of RFC 3629 allow.
 */
module Utf8 {
  import opened Octets
  import opened Sequences

  const ACCEPT := 0
  const REJECT := 1

  function Run(n: nat, v: nat): (s: seq<nat>)
    ensures |s| == n && forall i :: 0 <= i < n ==> s[i] == v
  {
    seq(n, _ => v)
  }

  /** The first 256 entries of the table: the class of every byte. */
  const CLASSES: seq<nat> :=
    Run(128, 0) + Run(16, 1) + Run(16, 9) + Run(32, 7) + Run(2, 8) + Run(30, 2)
    + [10] + Run(12, 3) + [4] + Run(2, 3) + [11] + Run(3, 6) + [5] + Run(11, 8)

  /** The other entries: for each of the nine states, the next state for each class. */
  const ROWS: seq<seq<nat>> := [
    [0, 1, 2, 3, 5, 8, 7, 1, 1, 1, 4, 6, 1, 1, 1, 1],
    [1, 1, 1, 1, 1, 1, 1, 1, 1, 1, 1, 1, 1, 1, 1, 1],
    [1, 0, 1, 1, 1, 1, 1, 0, 1, 0, 1, 1, 1, 1, 1, 1],
    [1, 2, 1, 1, 1, 1, 1, 2, 1, 2, 1, 1, 1, 1, 1, 1],
    [1, 1, 1, 1, 1, 1, 1, 2, 1, 1, 1, 1, 1, 1, 1, 1],
    [1, 2, 1, 1, 1, 1, 1, 1, 1, 2, 1, 1, 1, 1, 1, 1],
    [1, 1, 1, 1, 1, 1, 1, 3, 1, 3, 1, 1, 1, 1, 1, 1],
    [1, 3, 1, 1, 1, 1, 1, 3, 1, 3, 1, 1, 1, 1, 1, 1],
    [1, 3, 1, 1, 1, 1, 1, 1, 1, 1, 1, 1, 1, 1, 1, 1]
  ]

  predicate StateOk(state: nat) {
    state < 9
  }

  function Class(b: octet): (c: nat)
    ensures c < 12
  {
    ClassOf(b);
    CLASSES[b]
  }

  function NextState(state: nat, kind: nat): (n: nat)
    requires StateOk(state) && kind < 12
    ensures StateOk(n)
  {
    NextOf(state, kind);
    ROWS[state][kind]
  }

  /** The state of the decoder: the automaton state and the code point so far. */
  datatype Decoder = Decoder(state: nat, codep: nat)

  predicate DecoderOk(d: Decoder) {
    StateOk(d.state)
  }

  /** `(0xff >> type) & byte` */
  function LeadBits(kind: nat, b: octet): nat {
    if kind == 0 then b
    else if kind == 1 then b % 128
    else if kind == 2 then b % 64
    else if kind == 3 then b % 32
    else if kind == 4 then b % 16
    else if kind == 5 then b % 8
    else if kind == 6 then b % 4
    else if kind == 7 then b % 2
    else 0
  }

  /** `decode`: one byte. The code point is a 32-bit number. */
  function Step(d: Decoder, b: octet): (n: Decoder)
    requires DecoderOk(d)
    ensures DecoderOk(n)
  {
    var kind := Class(b);
    var codep := if d.state != ACCEPT then b % 64 + d.codep * 64 % 0x1_0000_0000 else LeadBits(kind, b);
    Decoder(NextState(d.state, kind), codep)
  }

  /** `validator::decode`: byte after byte until the first rejected one. */
  function Decode(d: Decoder, s: seq<octet>): (n: Decoder)
    requires DecoderOk(d)
    ensures DecoderOk(n)
    decreases |s|
  {
    if s == [] then d
    else
      var e := Step(d, s[0]);
      if e.state == REJECT then e else Decode(e, s[1..])
  }

  const START := Decoder(ACCEPT, 0)

  /** `validate` */
  predicate Valid(s: seq<octet>) {
    Decode(START, s).state == ACCEPT
  }

  /** The table's byte classes, as ranges. */
  lemma ClassOf(b: octet)
    ensures |CLASSES| == 256
    ensures CLASSES[b] ==
      if b < 0x80 then 0 else if b < 0x90 then 1 else if b < 0xA0 then 9 else if b < 0xC0 then 7
      else if b < 0xC2 then 8 else if b < 0xE0 then 2
      else if b == 0xE0 then 10 else if b < 0xED then 3 else if b == 0xED then 4 else if b < 0xF0 then 3
      else if b == 0xF0 then 11 else if b < 0xF4 then 6 else if b == 0xF4 then 5 else 8
  {
  }

  /** What each state is waiting for. */
  lemma NextOf(state: nat, kind: nat)
    requires StateOk(state) && kind < 12
    ensures |ROWS| == 9 && |ROWS[state]| == 16
    ensures ROWS[state][kind] ==
      if state == 0 then
        (if kind == 0 then 0 else if kind == 2 then 2 else if kind == 3 then 3 else if kind == 4 then 5
         else if kind == 5 then 8 else if kind == 6 then 7 else if kind == 10 then 4 else if kind == 11 then 6 else 1)
      else if state == 2 then (if kind in {1, 7, 9} then 0 else 1)
      else if state == 3 then (if kind in {1, 7, 9} then 2 else 1)
      else if state == 4 then (if kind == 7 then 2 else 1)
      else if state == 5 then (if kind in {1, 9} then 2 else 1)
      else if state == 6 then (if kind in {7, 9} then 3 else 1)
      else if state == 7 then (if kind in {1, 7, 9} then 3 else 1)
      else if state == 8 then (if kind == 1 then 3 else 1)
      else 1
  {
    if state == 0 {} else if state == 1 {} else if state == 2 {} else if state == 3 {} else if state == 4 {}
    else if state == 5 {} else if state == 6 {} else if state == 7 {} else {}
  }

  // ----- UTF-8 as sections 3 and 4 of RFC 3629 define it -----

  /** A Unicode scalar value: a code point that is not a surrogate. */
  type scalar = v: int | 0 <= v < 0xD800 || 0xE000 <= v <= 0x10FFFF

  /** The one sequence of octets that stands for a scalar value. */
  function Encode(v: scalar): seq<octet> {
    if v < 0x80 then [v]
    else if v < 0x800 then [0xC0 + v / 64, 0x80 + v % 64]
    else if v < 0x10000 then [0xE0 + v / 4096, 0x80 + v / 64 % 64, 0x80 + v % 64]
    else [0xF0 + v / 262144, 0x80 + v / 4096 % 64, 0x80 + v / 64 % 64, 0x80 + v % 64]
  }

  function EncodeAll(vs: seq<scalar>): seq<octet> {
    if vs == [] then [] else Encode(vs[0]) + EncodeAll(vs[1..])
  }

  // ----- The automaton, state by state -----

  predicate Tail(b: int) {
    0x80 <= b < 0xC0
  }

  /** The second octets that a state allows after the first octet of a sequence. */
  predicate Expects(state: nat, b: octet) {
    Tail(b) && (state == 4 ==> b >= 0xA0) && (state == 5 ==> b < 0xA0)
            && (state == 6 ==> b >= 0x90) && (state == 8 ==> b < 0x90)
  }

  /** How many octets a state still waits for. */
  function Pending(state: nat): nat {
    if state == ACCEPT then 0
    else if state == 2 then 1
    else if state == 3 || state == 4 || state == 5 then 2
    else if state == 6 || state == 7 || state == 8 then 3
    else 4
  }

  lemma TailStep(d: Decoder, b: octet)
    requires DecoderOk(d) && d.state >= 2 && d.codep < 0x400_0000
    ensures var e := Step(d, b);
            if Expects(d.state, b) then
              e.state == (if Pending(d.state) == 3 then 3 else if Pending(d.state) == 2 then 2 else ACCEPT)
              && e.codep == d.codep * 64 + b - 0x80
            else e.state == REJECT
  {
    ClassOf(b);
    NextOf(d.state, Class(b));
    hide CLASSES, ROWS, Run;
    assert d.codep * 64 % 0x1_0000_0000 == d.codep * 64;
    assert Tail(b) ==> b % 64 == b - 0x80;
  }

  lemma LeadStep(d: Decoder, b: octet)
    requires d.state == ACCEPT
    ensures Step(d, b) ==
      if b < 0x80 then Decoder(ACCEPT, b)
      else if 0xC2 <= b < 0xE0 then Decoder(2, b - 0xC0)
      else if b == 0xE0 then Decoder(4, 0)
      else if b == 0xED then Decoder(5, 0xD)
      else if 0xE1 <= b < 0xF0 then Decoder(3, b - 0xE0)
      else if b == 0xF0 then Decoder(6, 0)
      else if 0xF1 <= b < 0xF4 then Decoder(7, b - 0xF0)
      else if b == 0xF4 then Decoder(8, 4)
      else Decoder(REJECT, Step(d, b).codep)
  {
    ClassOf(b);
    NextOf(d.state, Class(b));
    hide CLASSES, ROWS, Run;
  }

  /** A rejected text stays rejected. */
  lemma {:induction false} RejectStays(d: Decoder, s: seq<octet>)
    requires d.state == REJECT
    ensures Decode(d, s).state == REJECT
    decreases |s|
  {
    if s != [] {
      NextOf(REJECT, Class(s[0]));
    }
  }

  /** Splitting a text in two does not change where the decoder ends, unless the first part is rejected. */
  lemma {:induction false} DecodeSplit(d: Decoder, s: seq<octet>, t: seq<octet>)
    requires DecoderOk(d)
    ensures Decode(d, s).state == REJECT ==> Decode(d, s + t).state == REJECT
    ensures Decode(d, s).state != REJECT ==> Decode(d, s + t) == Decode(Decode(d, s), t)
    decreases |s|
  {
    hide Step;
    if s == [] {
      assert s + t == t;
      if d.state == REJECT { RejectStays(d, t); }
    } else {
      assert (s + t)[1..] == s[1..] + t;
      if Step(d, s[0]).state != REJECT { DecodeSplit(Step(d, s[0]), s[1..], t); }
    }
  }

  // ----- One character -----

  /** From the accepting state, the octets of a scalar value lead back to it, with the value as code point. */
  lemma DecodeEncode(d: Decoder, v: scalar)
    requires d.state == ACCEPT
    ensures Decode(d, Encode(v)) == Decoder(ACCEPT, v)
  {
    hide *;
    var s := Encode(v);
    FirstOctet(d, v);
    DecodeCons(d, s);
    DecodeNothing(Decoder(ACCEPT, v));
    if 0x80 <= v { DecodeTails(Step(d, s[0]), s[1..], v); }
  }

  /** What the first octet of a character leaves to be read. */
  lemma FirstOctet(d: Decoder, v: scalar)
    requires d.state == ACCEPT
    ensures DecoderOk(d) && DecoderOk(Decoder(ACCEPT, v)) && Encode(v) != [] && ACCEPT != REJECT
    ensures var s := Encode(v);
            var e := Step(d, s[0]);
            if v < 0x80 then e == Decoder(ACCEPT, v) && s[1..] == []
            else
              && DecoderOk(e) && e.state != ACCEPT && e.state != REJECT
              && 1 <= |s[1..]| == Pending(e.state) <= 3
              && (e.codep < if |s[1..]| == 3 then 32 else if |s[1..]| == 2 then 2048 else 131072)
              && Expects(e.state, s[1]) && (forall i :: 0 <= i < |s[1..]| ==> Tail(s[1..][i]))
              && Joined(e.codep, s[1..]) == v
  {
    hide Step, Joined;
    LeadStep(d, Encode(v)[0]);
    if 0x80 <= v { JoinedTails(v); }
  }

  lemma Sextets(v: nat)
    ensures v == v / 64 * 64 + v % 64
    ensures v / 64 == v / 4096 * 64 + v / 64 % 64
    ensures v / 4096 == v / 262144 * 64 + v / 4096 % 64
  {
  }

  lemma JoinedTails(v: scalar)
    requires 0x80 <= v
    ensures Joined(if v < 0x800 then v / 64 else if v < 0x10000 then v / 4096 else v / 262144, Encode(v)[1..]) == v
  {
    hide Joined;
    Sextets(v);
    TailBits(v % 64);
    TailBits(v / 64 % 64);
    TailBits(v / 4096 % 64);
    JoinedOne(v / 64, 0x80 + v % 64);
    JoinedCons(v / 4096, 0x80 + v / 64 % 64, [0x80 + v % 64]);
    JoinedCons(v / 262144, 0x80 + v / 4096 % 64, [0x80 + v / 64 % 64, 0x80 + v % 64]);
    var tails := Encode(v)[1..];
    if v < 0x800 {
      assert tails == [0x80 + v % 64];
    } else if v < 0x10000 {
      assert tails == [0x80 + v / 64 % 64] + [0x80 + v % 64];
    } else {
      assert [0x80 + v / 64 % 64, 0x80 + v % 64] == [0x80 + v / 64 % 64] + [0x80 + v % 64];
      assert tails == [0x80 + v / 4096 % 64] + [0x80 + v / 64 % 64, 0x80 + v % 64];
    }
  }

  lemma JoinedCons(codep: nat, b: octet, s: seq<octet>)
    ensures Joined(codep, [b] + s) == Joined(codep * 64 + b % 64, s)
  {
    assert ([b] + s)[1..] == s;
  }

  lemma JoinedOne(codep: nat, b: octet)
    ensures Joined(codep, [b]) == codep * 64 + b % 64
  {
  }

  lemma TailBits(x: nat)
    requires x < 64
    ensures (0x80 + x) % 64 == x
  {
  }

  /** The value that tail octets add to. */
  function Joined(codep: nat, s: seq<octet>): int
    decreases |s|
  {
    if s == [] then codep else Joined(codep * 64 + s[0] % 64, s[1..])
  }

  /** A waiting state that gets as many tail octets as it waits for, the first one allowed, accepts. */
  lemma {:induction false} DecodeTails(d: Decoder, s: seq<octet>, v: nat)
    requires DecoderOk(d) && 1 <= |s| == Pending(d.state) <= 3
    requires d.codep < if |s| == 3 then 32 else if |s| == 2 then 2048 else 131072
    requires Expects(d.state, s[0]) && forall i :: 0 <= i < |s| ==> Tail(s[i])
    requires Joined(d.codep, s) == v
    ensures Decode(d, s) == Decoder(ACCEPT, v)
    decreases |s|
  {
    hide Step, Decode;
    TailStep(d, s[0]);
    DecodeCons(d, s);
    if |s| > 1 {
      DecodeTails(Step(d, s[0]), s[1..], v);
    } else {
      DecodeNothing(Decoder(ACCEPT, v));
    }
  }

  lemma DecodeCons(d: Decoder, s: seq<octet>)
    requires DecoderOk(d) && s != []
    ensures Decode(d, s) == var e := Step(d, s[0]); if e.state == REJECT then e else Decode(e, s[1..])
  {
  }

  lemma DecodeNothing(d: Decoder)
    requires DecoderOk(d)
    ensures Decode(d, []) == d
  {
  }

  /** A text that leads from the accepting state back to it begins with the octets of a scalar value. */
  lemma FirstCharacter(d: Decoder, s: seq<octet>) returns (v: scalar, rest: seq<octet>)
    requires d.state == ACCEPT && s != [] && Decode(d, s).state == ACCEPT
    ensures s == Encode(v) + rest && Decode(Decoder(ACCEPT, v), rest) == Decode(d, s)
  {
    hide Step, Decode, Encode, Prefix;
    LeadStep(d, s[0]);
    var e, t := Step(d, s[0]), s[1..];
    DecodeCons(d, s);
    PrefixLead(d, s[0]);
    ghost var octets := [s[0]];
    while e.state != ACCEPT
      invariant DecoderOk(e) && s == octets + t && Decode(e, t) == Decode(d, s) && e.state != REJECT
      invariant Prefix(octets, e)
      decreases Pending(e.state)
    {
      NextOctet(octets, e, t);
      octets := octets + [t[0]];
      e, t := Step(e, t[0]), t[1..];
    }
    v := PrefixDone(octets, e);
    rest := t;
  }

  /** In the middle of a character that is accepted in the end there is another octet, and fewer are pending after it. */
  lemma NextOctet(octets: seq<octet>, e: Decoder, t: seq<octet>)
    requires DecoderOk(e) && e.state != ACCEPT && e.state != REJECT
    requires Prefix(octets, e) && Decode(e, t).state == ACCEPT
    ensures t != []
    ensures var f := Step(e, t[0]);
            f.state != REJECT && Decode(f, t[1..]) == Decode(e, t) && Pending(f.state) < Pending(e.state)
            && Prefix(octets + [t[0]], f)
  {
    hide Step, Decode;
    if t == [] { DecodeNothing(e); }
    PrefixSmall(octets, e);
    hide Prefix;
    TailStep(e, t[0]);
    DecodeCons(e, t);
    PrefixGrows(octets, e, t[0]);
  }

  /**
   The octets read since the accepting state, and the state and code point they lead to: a number
   of octets and the range of the code point so far.
   */
  ghost predicate Prefix(octets: seq<octet>, d: Decoder) {
    match d.state
    case 0 => exists v: scalar :: v == d.codep && octets == Encode(v)
    case 4 => octets == [0xE0] && d.codep == 0
    case 5 => octets == [0xED] && d.codep == 0xD
    case 6 => octets == [0xF0] && d.codep == 0
    case 8 => octets == [0xF4] && d.codep == 4
    case 7 => 1 <= d.codep <= 3 && octets == [0xF0 + d.codep]
    case 3 =>
      if |octets| == 1 then 1 <= d.codep <= 15 && d.codep != 13 && octets == [0xE0 + d.codep]
      else 0x10 <= d.codep <= 0x10F && octets == [0xF0 + d.codep / 64, 0x80 + d.codep % 64]
    case 2 =>
      if |octets| == 1 then 2 <= d.codep <= 31 && octets == [0xC0 + d.codep]
      else if |octets| == 2 then
        0x20 <= d.codep < 0x400 && !(0x360 <= d.codep < 0x380)
        && octets == [0xE0 + d.codep / 64, 0x80 + d.codep % 64]
      else 0x400 <= d.codep < 0x4400 && octets == [0xF0 + d.codep / 4096, 0x80 + d.codep / 64 % 64, 0x80 + d.codep % 64]
    case _ => false
  }

  lemma PrefixLead(d: Decoder, b: octet)
    requires d.state == ACCEPT && Step(d, b).state != REJECT
    ensures Prefix([b], Step(d, b))
  {
    hide Step;
    LeadStep(d, b);
    if b < 0x80 { assert [b] == Encode(b); }
  }

  lemma PrefixSmall(octets: seq<octet>, d: Decoder)
    requires Prefix(octets, d)
    ensures d.codep < 0x400_0000
  {
  }

  lemma PrefixGrows(octets: seq<octet>, d: Decoder, b: octet)
    requires DecoderOk(d) && d.state >= 2 && Prefix(octets, d) && Expects(d.state, b)
    ensures Prefix(octets + [b], Step(d, b))
  {
    hide Step;
    PrefixSmall(octets, d);
    TailStep(d, b);
    var c := d.codep * 64 + b - 0x80;
    assert c / 64 == d.codep && c % 64 == b - 0x80;
    assert c / 4096 == d.codep / 64 && c / 262144 == d.codep / 4096;
    if d.state == 2 {
      var v: scalar := c;
      assert octets + [b] == Encode(v);
    }
  }

  lemma PrefixDone(octets: seq<octet>, d: Decoder) returns (v: scalar)
    requires d.state == ACCEPT && Prefix(octets, d)
    ensures v == d.codep && octets == Encode(v)
  {
    v :| v == d.codep && octets == Encode(v);
  }

  // ----- Whole texts -----

  /** The code points that the decoder shows each time it is back in the accepting state. */
  function CodePoints(d: Decoder, s: seq<octet>): seq<nat>
    requires DecoderOk(d)
    decreases |s|
  {
    if s == [] then []
    else
      var e := Step(d, s[0]);
      (if e.state == ACCEPT then [e.codep] else []) + CodePoints(e, s[1..])
  }

  /** `validate` accepts every sequence of encoded scalar values. */
  lemma {:induction false} EncodedIsValid(d: Decoder, vs: seq<scalar>)
    requires d.state == ACCEPT
    ensures Decode(d, EncodeAll(vs)).state == ACCEPT
    decreases |vs|
  {
    hide Step, Decode, Encode;
    if vs == [] {
      DecodeNothing(d);
    } else {
      DecodeEncode(d, vs[0]);
      DecodeSplit(d, Encode(vs[0]), EncodeAll(vs[1..]));
      EncodedIsValid(Decoder(ACCEPT, vs[0]), vs[1..]);
    }
  }

  /** Every text that `validate` accepts is a sequence of encoded scalar values. */
  lemma {:induction false} ValidIsEncoded(d: Decoder, s: seq<octet>) returns (vs: seq<scalar>)
    requires d.state == ACCEPT && Decode(d, s).state == ACCEPT
    ensures s == EncodeAll(vs)
    decreases |s|
  {
    hide Step, Decode;
    if s == [] {
      vs := [];
    } else {
      var v, rest := FirstCharacter(d, s);
      var ws := ValidIsEncoded(Decoder(ACCEPT, v), rest);
      vs := [v] + ws;
    }
  }

  /** The validator accepts exactly the UTF-8 texts of RFC 3629: no overlong forms, no surrogates, nothing above U+10FFFF. */
  lemma ValidIffUtf8(s: seq<octet>)
    ensures Valid(s) <==> exists vs: seq<scalar> :: s == EncodeAll(vs)
  {
    hide Decode;
    if Valid(s) {
      var vs := ValidIsEncoded(START, s);
    }
    forall vs: seq<scalar> | s == EncodeAll(vs) ensures Valid(s) {
      EncodedIsValid(START, vs);
    }
  }

  lemma CodePointsCons(d: Decoder, b: octet, s: seq<octet>)
    requires DecoderOk(d)
    ensures CodePoints(d, [b] + s)
         == var e := Step(d, b); (if e.state == ACCEPT then [e.codep] else []) + CodePoints(e, s)
  {
    assert ([b] + s)[1..] == s;
  }

  /** A waiting state shows nothing before its last tail octet, and then the finished value. */
  lemma {:induction false} CodePointsTails(d: Decoder, s: seq<octet>, v: nat, rest: seq<octet>)
    requires DecoderOk(d) && 1 <= |s| == Pending(d.state) <= 3
    requires d.codep < if |s| == 3 then 32 else if |s| == 2 then 2048 else 131072
    requires Expects(d.state, s[0]) && forall i :: 0 <= i < |s| ==> Tail(s[i])
    requires Joined(d.codep, s) == v
    ensures CodePoints(d, s + rest) == [v] + CodePoints(Decoder(ACCEPT, v), rest)
    decreases |s|
  {
    hide Step, CodePoints;
    TailStep(d, s[0]);
    CodePointsCons(d, s[0], s[1..] + rest);
    assert s + rest == [s[0]] + (s[1..] + rest);
    if |s| > 1 {
      CodePointsTails(Step(d, s[0]), s[1..], v, rest);
    } else {
      assert s[1..] + rest == rest;
    }
  }

  lemma CodePointsEncode(d: Decoder, v: scalar, rest: seq<octet>)
    requires d.state == ACCEPT
    ensures CodePoints(d, Encode(v) + rest) == [v] + CodePoints(Decoder(ACCEPT, v), rest)
  {
    hide *;
    var s := Encode(v);
    FirstOctet(d, v);
    CodePointsCons(d, s[0], s[1..] + rest);
    assert s + rest == [s[0]] + (s[1..] + rest);
    if 0x80 <= v {
      CodePointsTails(Step(d, s[0]), s[1..], v, rest);
    } else {
      assert s[1..] + rest == rest;
    }
  }

  /** Each return to the accepting state shows the scalar value just read, so decoding inverts encoding. */
  lemma {:induction false} CodePointsAreScalars(d: Decoder, vs: seq<scalar>)
    requires d.state == ACCEPT
    ensures CodePoints(d, EncodeAll(vs)) == vs
    decreases |vs|
  {
    hide Step, Encode;
    if vs != [] {
      hide CodePoints;
      CodePointsEncode(d, vs[0], EncodeAll(vs[1..]));
      CodePointsAreScalars(Decoder(ACCEPT, vs[0]), vs[1..]);
    }
  }

  // ----- The streaming validator -----

  /** A decoder that has seen a text: where the text leads, or rejecting once the text is rejected. */
  ghost predicate HasSeen(d: Decoder, s: seq<octet>) {
    var whole := Decode(START, s);
    if whole.state == REJECT then d.state == REJECT else d == whole
  }

  lemma SeesMore(d: Decoder, s: seq<octet>, t: seq<octet>)
    requires DecoderOk(d) && HasSeen(d, s)
    ensures HasSeen(Decode(d, t), s + t)
  {
    hide Decode;
    DecodeSplit(START, s, t);
    if d.state == REJECT { RejectStays(d, t); }
  }

  lemma SeesOctet(d: Decoder, s: seq<octet>, b: octet)
    requires DecoderOk(d) && HasSeen(d, s)
    ensures HasSeen(Step(d, b), s + [b])
  {
    hide Decode, Step, HasSeen;
    DecodeCons(d, [b]);
    DecodeNothing(Step(d, b));
    SeesMore(d, s, [b]);
    assert [b][1..] == [];
  }

  lemma AcceptsWhatIsValid(d: Decoder, s: seq<octet>)
    requires HasSeen(d, s)
    ensures d.state == ACCEPT <==> exists vs: seq<scalar> :: s == EncodeAll(vs)
  {
    hide Decode;
    ValidIffUtf8(s);
  }

  class Validator {
    var state: nat
    var codepoint: nat
    /** Every octet handed in since construction or the last reset. */
    ghost var seen: seq<octet>

    function View(): Decoder
      reads this
    {
      Decoder(state, codepoint)
    }

    ghost predicate Ok()
      reads this
    {
      DecoderOk(View()) && HasSeen(View(), seen)
    }

    constructor ()
      ensures View() == START && seen == [] && Ok()
    {
      state, codepoint, seen := ACCEPT, 0, [];
    }

    /** The free function `decode` on the validator's own state. */
    method Advance(b: octet) returns (result: nat)
      requires Ok()
      modifies this
      ensures Ok() && View() == Step(old(View()), b) && result == state
      ensures seen == old(seen) + [b]
    {
      hide HasSeen, CLASSES, ROWS, Run;
      SeesOctet(View(), seen, b);
      var kind := Class(b);
      codepoint := if state != ACCEPT then b % 64 + codepoint * 64 % 0x1_0000_0000 else LeadBits(kind, b);
      state := NextState(state, kind);
      seen := seen + [b];
      result := state;
    }

    method Consume(b: octet) returns (ok: bool)
      requires Ok()
      modifies this
      ensures Ok() && View() == Step(old(View()), b) && ok == (state != REJECT)
      ensures seen == old(seen) + [b]
    {
      var result := Advance(b);
      ok := result != REJECT;
    }

    /** `validator::decode`; on an empty range it reports success whatever the state. */
    method DecodeRange(s: seq<octet>) returns (ok: bool)
      requires Ok()
      modifies this
      ensures Ok() && View() == Decode(old(View()), s)
      ensures ok == (s == [] || state != REJECT)
      ensures seen == old(seen) + s
    {
      hide Step, CLASSES, ROWS, HasSeen;
      SeesMore(View(), seen, s);
      for i := 0 to |s|
        invariant Ok() && Decode(View(), s[i..]) == Decode(old(View()), s)
        invariant i > 0 ==> state != REJECT
      {
        DecodeCons(View(), s[i..]);
        assert s[i..][1..] == s[i + 1..];
        var result := Advance(s[i]);
        if result == REJECT {
          seen := old(seen) + s;
          return false;
        }
      }
      DecodeNothing(View());
      seen := old(seen) + s;
      ok := true;
    }

    /** Whether the octets so far are whole characters. */
    method Complete() returns (ok: bool)
      requires Ok()
      ensures ok <==> exists vs: seq<scalar> :: seen == EncodeAll(vs)
    {
      hide HasSeen;
      AcceptsWhatIsValid(View(), seen);
      ok := state == ACCEPT;
    }

    method Reset()
      modifies this
      ensures View() == START && seen == [] && Ok()
    {
      state := ACCEPT;
      codepoint := 0;
      seen := [];
    }
  }

  /** `validate` */
  method Validate(s: seq<octet>) returns (ok: bool)
    ensures ok == Valid(s)
  {
    hide Decode;
    var v := new Validator();
    ok := v.DecodeRange(s);
    ValidIffUtf8(s);
    assert v.seen == s;
    if ok {
      ok := v.Complete();
    }
  }

  /** What the validator holds after the chunks of a message, whether or not some were rejected. */
  function DecodeChunks(d: Decoder, chunks: seq<seq<octet>>): (n: Decoder)
    requires DecoderOk(d)
    ensures DecoderOk(n)
    decreases |chunks|
  {
    if chunks == [] then d else DecodeChunks(Decode(d, chunks[0]), chunks[1..])
  }

  /** However a message is split into `decode` calls, `complete` gives the verdict on the whole message. */
  lemma {:induction false} ChunksDecideTogether(d: Decoder, chunks: seq<seq<octet>>)
    requires DecoderOk(d)
    ensures DecodeChunks(d, chunks).state == ACCEPT <==> Decode(d, Flatten(chunks)).state == ACCEPT
    ensures Decode(d, Flatten(chunks)).state != REJECT ==> DecodeChunks(d, chunks) == Decode(d, Flatten(chunks))
    decreases |chunks|
  {
    hide Step, Decode;
    if chunks == [] {
      DecodeNothing(d);
    } else {
      DecodeSplit(d, chunks[0], Flatten(chunks[1..]));
      var e := Decode(d, chunks[0]);
      ChunksDecideTogether(e, chunks[1..]);
      if e.state == REJECT {
        RejectStays(e, Flatten(chunks[1..]));
      }
    }
  }
}
