/**
  * MD5 (RFC 1321) fed piece by piece. The rounds on one block are a parameter; the buffering of partial
  * blocks, the two-word bit counter, the padding and the byte order of the digest are modelled.
  */
module Md5 {
  import opened Octets
  import opened Sequences

  type word = w: int | 0 <= w < WORD

  const TWO_WORDS: int := 0x1_0000_0000_0000_0000

  datatype Registers = Registers(a: word, b: word, c: word, d: word)

  /** `md5_process`: the registers after one block of 64 octets. */
  type Process = (Registers, seq<octet>) -> Registers

  /** The initial registers of section 3.3. */
  const INITIAL := Registers(0x67452301, 0xefcdab89, 0x98badcfe, 0x10325476)

  // ----- What RFC 1321 asks for -----

  /** The registers after all the blocks of `s`, from the first to the last. */
  ghost function Fold(process: Process, s: seq<octet>): Registers
    requires |s| % 64 == 0
    decreases |s|
  {
    if s == [] then INITIAL else process(Fold(process, s[..|s| - 64]), s[|s| - 64..])
  }

  function Zeros(n: nat): (z: seq<octet>)
    ensures |z| == n && forall i :: 0 <= i < n ==> z[i] == 0
  {
    seq(n, _ => 0)
  }

  /** The lowest `n` octets of `x`, the least significant one first. */
  function LittleEndian(x: nat, n: nat): (s: seq<octet>)
    ensures |s| == n
    decreases n
  {
    if n == 0 then [] else [x % 256] + LittleEndian(x / 256, n - 1)
  }

  /** How many zeros follow the 0x80 of section 3.1. */
  function Padding(length: nat): nat {
    (55 - length) % 64
  }

  /** Sections 3.1 and 3.2: a one bit, zero bits, and the length in bits in 64 bits. */
  function Padded(m: seq<octet>): seq<octet> {
    m + [0x80] + Zeros(Padding(|m|)) + LittleEndian(8 * |m| % TWO_WORDS, 8)
  }

  function DigestOctets(r: Registers): (s: seq<octet>)
    ensures |s| == 16
  {
    LittleEndian(r.a, 4) + LittleEndian(r.b, 4) + LittleEndian(r.c, 4) + LittleEndian(r.d, 4)
  }

  lemma PaddedIsWhole(m: seq<octet>)
    ensures |Padded(m)| % 64 == 0
    ensures |Padded(m)| == |m| + Padding(|m|) + 9
  {
    assert (|m| + (55 - |m|) % 64 + 9) % 64 == 0;
  }

  /** The digest of a whole message. */
  ghost function Digest(process: Process, m: seq<octet>): (s: seq<octet>)
    ensures |s| == 16
  {
    PaddedIsWhole(m);
    DigestOctets(Fold(process, Padded(m)))
  }

  // ----- Facts about the padding -----

  /** No fewer zeros leave room for the length at the end of a block. */
  lemma PaddingIsLeast(length: nat, zeros: nat)
    requires (length + 1 + zeros) % 64 == 56
    ensures (length + 1 + Padding(length)) % 64 == 56
    ensures Padding(length) <= zeros
  {
    assert (length + 1 + (55 - length) % 64) % 64 == 56;
    if zeros < 64 {
      assert zeros == (55 - length) % 64;
    }
  }

  lemma {:induction false} LittleEndianInjective(x: nat, y: nat, n: nat)
    requires LittleEndian(x, n) == LittleEndian(y, n)
    requires x < Pow256(n) && y < Pow256(n)
    ensures x == y
    decreases n
  {
    if n > 0 {
      var s, t := LittleEndian(x, n), LittleEndian(y, n);
      assert s[0] == x % 256 && t[0] == y % 256;
      assert s[1..] == LittleEndian(x / 256, n - 1) && t[1..] == LittleEndian(y / 256, n - 1);
      LittleEndianInjective(x / 256, y / 256, n - 1);
    }
  }

  /** Two messages below 2 to the 61 octets with the same padded form are the same message. */
  lemma PaddedInjective(m: seq<octet>, n: seq<octet>)
    requires |m| < TWO_WORDS / 8 && |n| < TWO_WORDS / 8
    requires Padded(m) == Padded(n)
    ensures m == n
  {
    LengthFits(|m|);
    LengthFits(|n|);
    EightOctets();
    hide *;
    PaddedEnds(m);
    PaddedEnds(n);
    LittleEndianInjective(8 * |m|, 8 * |n|, 8);
    assert |m| == |n|;
  }

  lemma LengthFits(n: nat)
    requires n < TWO_WORDS / 8
    ensures 8 * n < TWO_WORDS && 8 * n % TWO_WORDS == 8 * n
  {
  }

  lemma PaddedEnds(m: seq<octet>)
    ensures |m| + 8 <= |Padded(m)| && Padded(m)[..|m|] == m
    ensures Padded(m)[|Padded(m)| - 8..] == LittleEndian(8 * |m| % TWO_WORDS, 8)
  {
    hide LittleEndian, Padding, Zeros;
  }

  lemma EightOctets()
    ensures Pow256(8) == TWO_WORDS
  {
    assert Pow256(4) == WORD;
    assert Pow256(8) == 256 * Pow256(7) == 65536 * Pow256(6);
    assert Pow256(6) == 65536 * Pow256(4);
  }

  // ----- Folding over messages that grow -----

  /** The part of a message that fills whole blocks. */
  function Whole(n: nat): (w: nat)
    ensures w <= n && w % 64 == 0 && n - w == n % 64
  {
    n / 64 * 64
  }

  lemma FoldOneMore(process: Process, s: seq<octet>, block: seq<octet>)
    requires |s| % 64 == 0 && |block| == 64
    ensures |s + block| % 64 == 0
    ensures Fold(process, s + block) == process(Fold(process, s), block)
  {
    assert (s + block)[..|s + block| - 64] == s;
    assert (s + block)[|s + block| - 64..] == block;
  }

  /** The position in the buffer, read from the low word of the counter. */
  lemma OffsetOfCount(n: nat)
    ensures 8 * n % TWO_WORDS % WORD / 8 % 64 == n % 64
  {
    LowWord(8 * n);
    Scale(n);
    Mod64(n);
  }

  lemma Mod64(n: nat)
    ensures n % 536870912 % 64 == n % 64
  {
  }

  lemma LowWord(x: nat)
    ensures x % TWO_WORDS % WORD == x % WORD
  {
    var q := x / TWO_WORDS;
    assert x == x % TWO_WORDS + WORD * (WORD * q);
    AddMultiple(x % TWO_WORDS, WORD * q);
  }

  lemma AddMultiple(x: nat, q: nat)
    ensures (x + WORD * q) % WORD == x % WORD
  {
  }

  lemma Scale(n: nat)
    ensures 8 * n % WORD == 8 * (n % 536870912)
  {
    var q, r := n / 536870912, n % 536870912;
    assert 8 * n == WORD * q + 8 * r;
  }

  /** The two counter words after the carry of `md5_append`, as one number. */
  lemma CountAdds(low: word, high: word, nbytes: nat)
    ensures var nbits := 8 * nbytes % WORD;
            var low' := (low + nbits) % WORD;
            var high' := (high + nbytes / 536870912 + (if low' < nbits then 1 else 0)) % WORD;
            high' * WORD + low' == (high * WORD + low + 8 * nbytes) % TWO_WORDS
  {
    var nbits := 8 * nbytes % WORD;
    Scale(nbytes);
    var sum := low + nbits;
    var carry := if sum >= WORD then 1 else 0;
    assert sum % WORD == sum - carry * WORD;
    var top := high + nbytes / 536870912 + carry;
    assert high * WORD + low + 8 * nbytes == top * WORD + sum % WORD by {
      assert nbytes == nbytes / 536870912 * 536870912 + nbytes % 536870912;
    }
    TwoWords(top, sum % WORD);
  }

  lemma TwoWords(top: nat, low: word)
    ensures (top * WORD + low) % TWO_WORDS == top % WORD * WORD + low
  {
    var q := top / WORD;
    assert top * WORD + low == TWO_WORDS * q + (top % WORD * WORD + low);
  }

  // ----- The running state -----

  class State {
    var count0: word
    var count1: word
    var abcd: Registers
    const buf: array<octet>
    const process: Process

    /** All that was appended so far. */
    ghost var message: seq<octet>

    /** The counter is the message length in bits, the registers cover its whole blocks, and the rest is buffered. */
    ghost predicate Valid()
      reads this, buf
    {
      buf.Length == 64 && Counted(count0, count1, |message|) && Buffered(message)
    }

    ghost predicate Buffered(m: seq<octet>)
      requires buf.Length == 64
      reads this, buf
    {
      && abcd == Fold(process, m[..Whole(|m|)])
      && buf[..|m| % 64] == m[Whole(|m|)..]
    }

    /** `md5_init` */
    constructor (process: Process)
      ensures Valid() && fresh(buf)
      ensures this.process == process && message == []
    {
      count0, count1 := 0, 0;
      abcd := INITIAL;
      buf := new octet[64](_ => 0);
      this.process := process;
      message := [];
    }

    /** `memcpy` into the buffer. */
    method Copy(offset: nat, data: seq<octet>)
      requires offset + |data| <= buf.Length
      modifies buf
      ensures buf[..offset] == old(buf[..offset])
      ensures buf[offset..offset + |data|] == data
    {
      forall i | 0 <= i < |data| {
        buf[offset + i] := data[i];
      }
    }

    method Count(nbytes: nat, ghost before: nat)
      requires Counted(count0, count1, before)
      modifies `count0, `count1
      ensures Counted(count0, count1, before + nbytes)
    {
      CountAdds(count0, count1, nbytes);
      CountOfLength(before, nbytes);
      var nbits := 8 * nbytes % WORD;
      var high := count1 + nbytes / 536870912;
      count0 := (count0 + nbits) % WORD;
      count1 := (high + (if count0 < nbits then 1 else 0)) % WORD;
    }

    /** The first step of `md5_append`: fills the buffer, and processes it when it is full. */
    method AppendPartial(data: seq<octet>, offset: nat) returns (copied: nat)
      requires buf.Length == 64 && 0 < offset < 64 && |data| > 0
      requires offset == |message| % 64
      requires abcd == Fold(process, message[..Whole(|message|)])
      requires buf[..offset] == message[Whole(|message|)..]
      modifies `abcd, buf
      ensures copied <= |data|
      ensures offset + copied < 64 ==> copied == |data| && abcd == old(abcd)
      ensures offset + copied < 64 ==> buf[..offset + copied] == (message + data)[Whole(|message|)..]
      ensures offset + copied >= 64 ==>
                (|message| + copied) % 64 == 0 && abcd == Fold(process, (message + data)[..|message| + copied])
    {
      hide Fold;
      var copy := if offset + |data| > 64 then 64 - offset else |data|;
      Copy(offset, data[..copy]);
      ghost var w := Whole(|message|);
      assert buf[..offset + copy] == message[w..] + data[..copy];
      if offset + copy < 64 {
        assert (message + data)[w..] == message[w..] + data;
        return copy;
      }
      assert buf[..] == buf[..offset + copy];
      FoldOneMore(process, message[..w], buf[..]);
      assert message[..w] + (message[w..] + data[..copy]) == (message + data)[..|message| + copy];
      abcd := process(abcd, buf[..]);
      return copy;
    }

    /** The rest of `md5_append`, from position `start` on: full blocks, then a last partial one. */
    method AppendBlocks(data: seq<octet>, start: nat)
      requires buf.Length == 64 && start <= |data| && (|message| + start) % 64 == 0
      requires abcd == Fold(process, (message + data)[..|message| + start])
      modifies `abcd, buf
      ensures Buffered(message + data)
    {
      hide Fold, Whole;
      ghost var all := message + data;
      var p := start;
      while |data| - p >= 64
        invariant p <= |data| && (|message| + p) % 64 == 0
        invariant abcd == Fold(process, all[..|message| + p])
      {
        BlockOf(message, data, p);
        FoldOneMore(process, all[..|message| + p], data[p..p + 64]);
        abcd := process(abcd, data[p..p + 64]);
        p := p + 64;
      }
      WholeOf(|all|, |message| + p);
      RestOf(message, data, p);
      if |data| > p {
        Copy(0, data[p..]);
      }
    }

    /** `md5_append` */
    method Append(data: seq<octet>)
      requires Valid()
      modifies this, buf
      ensures Valid()
      ensures message == old(message) + data
    {
      hide Fold, Counted, Whole;
      var offset: nat := count0 / 8 % 64;
      CountIsOffset(count0, count1, |message|);
      if |data| == 0 {
        assert message + data == message;
        return;
      }
      Count(|data|, |message|);
      ghost var all := message + data;
      var p := 0;
      if offset != 0 {
        p := AppendPartial(data, offset);
        if offset + p < 64 {
          ShortAppend(|message|, |data|);
          assert all[..Whole(|message|)] == message[..Whole(|message|)];
          message := all;
          return;
        }
      } else {
        assert all[..|message|] == message[..Whole(|message|)];
      }
      AppendBlocks(data, p);
      message := all;
    }

    /** `md5_finish` */
    method Finish() returns (digest: seq<octet>)
      requires Valid()
      modifies this, buf
      ensures digest == Digest(process, old(message))
    {
      hide Fold, Counted, Padding, Whole, LittleEndian, OctetAt, Padded;
      var length := [];
      for i := 0 to 8
        invariant |length| == i
        invariant forall j :: 0 <= j < i ==> length[j] == OctetAt(if j < 4 then count0 else count1, j % 4)
      {
        length := length + [OctetAt(if i / 4 == 0 then count0 else count1, i % 4)];
      }
      LengthOctets(count0, count1, |message|, length);
      CountIsOffset(count0, count1, |message|);
      var padding := PAD[..(55 - count0 / 8) % 64 + 1];
      PadPrefix(count0, |message|);
      ghost var m := message;
      Append(padding);
      Append(length);
      PaddedIs(m, padding, length);
      PaddedIsWhole(m);
      WholeOf(|message|, |message|);
      assert message[..|message|] == message;
      digest := DigestBytes(abcd);
    }
  }

  /** The octet of a word that a shift by `8 * i` bits brings to the bottom. */
  function OctetAt(w: word, i: nat): octet
    requires i < 4
  {
    w / (if i == 0 then 1 else if i == 1 then 256 else if i == 2 then 65536 else 16777216) % 256
  }

  lemma OctetsOfWord(w: word)
    ensures LittleEndian(w, 4) == [OctetAt(w, 0), OctetAt(w, 1), OctetAt(w, 2), OctetAt(w, 3)]
  {
    assert LittleEndian(w, 4) == [w % 256] + LittleEndian(w / 256, 3);
    assert LittleEndian(w / 256, 3) == [w / 256 % 256] + LittleEndian(w / 256 / 256, 2);
    assert LittleEndian(w / 256 / 256, 2) == [w / 256 / 256 % 256, w / 256 / 256 / 256 % 256];
    assert w / 256 / 256 == w / 65536 && w / 256 / 256 / 256 == w / 16777216;
  }

  lemma {:induction false} OctetsOfWords(low: nat, high: nat, n: nat)
    requires low < Pow256(n)
    ensures LittleEndian(high * Pow256(n) + low, n + 4) == LittleEndian(low, n) + LittleEndian(high, 4)
    decreases n
  {
    hide *;
    if n == 0 {
      NoOctets(low, high);
    } else {
      var h := high * Pow256(n - 1);
      NextPower(high, n);
      Step(h, low);
      assert low / 256 < Pow256(n - 1);
      OctetsOfWords(low / 256, high, n - 1);
      LittleEndianStep(256 * h + low, n + 4);
      LittleEndianStep(low, n);
      assert n + 4 - 1 == n - 1 + 4;
    }
  }

  lemma NoOctets(low: nat, high: nat)
    requires low < Pow256(0)
    ensures LittleEndian(high * Pow256(0) + low, 4) == LittleEndian(low, 0) + LittleEndian(high, 4)
  {
    hide LittleEndian;
    assert LittleEndian(low, 0) == [];
  }

  lemma NextPower(high: nat, n: nat)
    requires n > 0
    ensures high * Pow256(n) == 256 * (high * Pow256(n - 1)) && Pow256(n) == 256 * Pow256(n - 1)
  {
  }

  lemma LittleEndianStep(x: nat, n: nat)
    requires n > 0
    ensures LittleEndian(x, n) == [x % 256] + LittleEndian(x / 256, n - 1)
  {
  }

  lemma Step(h: nat, low: nat)
    ensures (256 * h + low) % 256 == low % 256
    ensures (256 * h + low) / 256 == h + low / 256
  {
  }

  lemma LengthOctets(low: word, high: word, n: nat, length: seq<octet>)
    requires Counted(low, high, n)
    requires |length| == 8
    requires forall j :: 0 <= j < 8 ==> length[j] == OctetAt(if j < 4 then low else high, j % 4)
    ensures length == LittleEndian(8 * n % TWO_WORDS, 8)
  {
    hide OctetAt, LittleEndian;
    assert Pow256(4) == WORD;
    hide Pow256;
    OctetsOfWords(low, high, 4);
    OctetsOfWord(low);
    OctetsOfWord(high);
    assert length == length[..4] + length[4..];
  }

  const PAD: seq<octet> := [0x80] + Zeros(63)

  lemma PadPrefix(low: word, n: nat)
    requires low / 8 % 64 == n % 64
    ensures PAD[..(55 - low / 8) % 64 + 1] == [0x80] + Zeros(Padding(n))
  {
    assert (55 - low / 8) % 64 == Padding(n);
  }

  lemma PaddedIs(m: seq<octet>, padding: seq<octet>, length: seq<octet>)
    requires padding == [0x80] + Zeros(Padding(|m|))
    requires length == LittleEndian(8 * |m| % TWO_WORDS, 8)
    ensures m + padding + length == Padded(m)
  {
    hide Padding, Zeros, LittleEndian;
    assert m + padding == m + [0x80] + Zeros(Padding(|m|));
  }

  method DigestBytes(r: Registers) returns (digest: seq<octet>)
    ensures digest == DigestOctets(r)
  {
    hide LittleEndian, OctetAt;
    var abcd := [r.a, r.b, r.c, r.d];
    digest := [];
    for i := 0 to 16
      invariant |digest| == i
      invariant forall j :: 0 <= j < i ==> digest[j] == OctetAt(abcd[j / 4], j % 4)
    {
      digest := digest + [OctetAt(abcd[i / 4], i % 4)];
    }
    OctetsOfWord(r.a);
    OctetsOfWord(r.b);
    OctetsOfWord(r.c);
    OctetsOfWord(r.d);
    assert digest[..4] == LittleEndian(r.a, 4);
    assert digest[4..8] == LittleEndian(r.b, 4);
    assert digest[8..12] == LittleEndian(r.c, 4);
    assert digest[12..] == LittleEndian(r.d, 4);
    assert digest == digest[..4] + digest[4..8] + digest[8..12] + digest[12..];
  }

  // ----- The digest and the padded message by their octets -----

  lemma FourOctets(x: nat)
    ensures var s := LittleEndian(x, 4);
            s == [x % 256, x / 256 % 256, x / 256 / 256 % 256, x / 256 / 256 / 256 % 256]
  {
    LittleEndianStep(x, 4);
    LittleEndianStep(x / 256, 3);
    LittleEndianStep(x / 256 / 256, 2);
    LittleEndianStep(x / 256 / 256 / 256, 1);
    hide LittleEndian;
    assert LittleEndian(x / 256 / 256 / 256 / 256, 0) == [];
  }

  lemma LowestOctet(x: nat)
    ensures x == 0x100 * (x / 0x100) + x % 0x100
  {
  }

  lemma FourDigits(x: word)
    ensures x % 256 + 0x100 * (x / 256 % 256) + 0x10000 * (x / 256 / 256 % 256) + 0x1000000 * (x / 256 / 256 / 256 % 256) == x
  {
    var y := x / 256;
    var z := y / 256;
    var w := z / 256;
    LowestOctet(x);
    LowestOctet(y);
    LowestOctet(z);
    assert w < 256;
  }

  /** Four octets stand for their word, the first one for its lowest bits. */
  lemma WordOfOctets(x: word)
    ensures var s: seq<int> := LittleEndian(x, 4);
            s[0] + 0x100 * s[1] + 0x10000 * s[2] + 0x1000000 * s[3] == x
  {
    FourOctets(x);
    FourDigits(x);
    hide LittleEndian;
  }

  /** From the lowest octet of register A to the highest of register D. */
  lemma DigestIsRegisters(process: Process, m: seq<octet>)
    ensures |Padded(m)| % 64 == 0
    ensures var d: seq<int>, r := Digest(process, m), Fold(process, Padded(m));
            && |d| == 16
            && d[0] + 0x100 * d[1] + 0x10000 * d[2] + 0x1000000 * d[3] == r.a
            && d[4] + 0x100 * d[5] + 0x10000 * d[6] + 0x1000000 * d[7] == r.b
            && d[8] + 0x100 * d[9] + 0x10000 * d[10] + 0x1000000 * d[11] == r.c
            && d[12] + 0x100 * d[13] + 0x10000 * d[14] + 0x1000000 * d[15] == r.d
  {
    hide LittleEndian, Padded, Fold;
    PaddedIsWhole(m);
    var r := Fold(process, Padded(m));
    WordOfOctets(r.a);
    WordOfOctets(r.b);
    WordOfOctets(r.c);
    WordOfOctets(r.d);
  }

  lemma LengthOfOctets(x: nat)
    requires x < TWO_WORDS
    ensures var s: seq<int> := LittleEndian(x, 8);
            s[0] + 0x100 * s[1] + 0x10000 * s[2] + 0x1000000 * s[3]
            + WORD * (s[4] + 0x100 * s[5] + 0x10000 * s[6] + 0x1000000 * s[7]) == x
  {
    hide LittleEndian;
    assert Pow256(4) == WORD;
    hide Pow256;
    OctetsOfWords(x % WORD, x / WORD, 4);
    WordOfOctets(x % WORD);
    WordOfOctets(x / WORD);
  }

  lemma PaddedParts(m: seq<octet>)
    ensures var n, p := |m|, Padded(m);
            && n + 9 <= |p| <= n + 72
            && p[..n] == m && p[n] == 0x80 && (forall i :: n < i < |p| - 8 ==> p[i] == 0)
            && p[|p| - 8..] == LittleEndian(8 * n % TWO_WORDS, 8)
  {
    hide LittleEndian;
    var zeros, length := Zeros(Padding(|m|)), LittleEndian(8 * |m| % TWO_WORDS, 8);
    assert 0 <= Padding(|m|) < 64;
    hide Padding, Zeros;
    var p := Padded(m);
    assert forall i :: 0 <= i < |zeros| ==> p[|m| + 1 + i] == zeros[i];
    assert p[|p| - 8..] == length;
  }

  /** The message, a one bit, as few zero bits as fill a block, and the length in bits in eight octets. */
  lemma PaddedOctets(m: seq<octet>)
    ensures var n, p := |m|, Padded(m);
            && |p| % 64 == 0 && n + 9 <= |p| <= n + 72
            && p[..n] == m && p[n] == 0x80 && (forall i :: n < i < |p| - 8 ==> p[i] == 0)
            && var s: seq<int> := p[|p| - 8..];
               s[0] + 0x100 * s[1] + 0x10000 * s[2] + 0x1000000 * s[3]
               + 0x1_0000_0000 * (s[4] + 0x100 * s[5] + 0x10000 * s[6] + 0x1000000 * s[7])
               == 8 * n % 0x1_0000_0000_0000_0000
  {
    LengthFitsWords(8 * |m|);
    hide LittleEndian, Padded;
    PaddedIsWhole(m);
    PaddedParts(m);
    LengthOfOctets(8 * |m| % TWO_WORDS);
  }

  lemma LengthFitsWords(x: nat)
    ensures 0 <= x % TWO_WORDS < TWO_WORDS
  {
  }

  /** The blocks are taken from the first to the last, starting with the registers of section 3.3. */
  lemma FoldsBlocks(process: Process, s: seq<octet>, block: seq<octet>)
    requires |s| % 64 == 0 && |block| == 64
    ensures |s + block| % 64 == 0 && Fold(process, s + block) == process(Fold(process, s), block)
    ensures Fold(process, []) == Registers(0x67452301, 0xefcdab89, 0x98badcfe, 0x10325476)
  {
    FoldOneMore(process, s, block);
  }

  /** `md5_hash_string` */
  method HashString(process: Process, s: seq<octet>) returns (digest: seq<octet>)
    ensures digest == Digest(process, s)
  {
    hide *;
    var state := new State(process);
    state.Append(s);
    assert [] + s == s;
    digest := state.Finish();
  }

  /** A caller that appends a message in any pieces gets the digest of the whole message. */
  method HashChunks(process: Process, chunks: seq<seq<octet>>) returns (digest: seq<octet>)
    ensures digest == Digest(process, Flatten(chunks))
  {
    hide *;
    var state := new State(process);
    FlattenNothing(chunks[..0]);
    for i := 0 to |chunks|
      invariant state.Valid() && state.process == process && fresh(state) && fresh(state.buf)
      invariant state.message == Flatten(chunks[..i])
    {
      FlattenStep(chunks, i);
      state.Append(chunks[i]);
    }
    assert chunks[..|chunks|] == chunks;
    digest := state.Finish();
  }

  lemma BlockOf(message: seq<octet>, data: seq<octet>, p: nat)
    requires p + 64 <= |data|
    ensures var all := message + data;
            all[..|message| + p] + data[p..p + 64] == all[..|message| + p + 64]
  {
  }

  lemma RestOf(message: seq<octet>, data: seq<octet>, p: nat)
    requires p <= |data|
    ensures (message + data)[|message| + p..] == data[p..]
  {
  }

  /** The two counter words hold the length of `n` octets in bits, modulo 2 to the 64. */
  predicate Counted(low: word, high: word, n: nat) {
    high * WORD + low == 8 * n % TWO_WORDS
  }

  lemma CountIsOffset(low: word, high: word, n: nat)
    requires Counted(low, high, n)
    ensures low / 8 % 64 == n % 64
  {
    OffsetOfCount(n);
    AddMultiple(low, high);
  }

  lemma CountOfLength(m: nat, n: nat)
    ensures (8 * m % TWO_WORDS + 8 * n) % TWO_WORDS == 8 * (m + n) % TWO_WORDS
  {
    var q, r := 8 * m / TWO_WORDS, 8 * m % TWO_WORDS;
    assert 8 * (m + n) == TWO_WORDS * q + (r + 8 * n);
    AddTwoWords(r + 8 * n, q);
  }

  lemma AddTwoWords(x: nat, q: nat)
    ensures (TWO_WORDS * q + x) % TWO_WORDS == x % TWO_WORDS
  {
  }

  lemma ShortAppend(m: nat, n: nat)
    requires m % 64 + n < 64
    ensures Whole(m + n) == Whole(m) && (m + n) % 64 == m % 64 + n
  {
  }

  lemma WholeOf(n: nat, w: nat)
    requires w % 64 == 0 && w <= n < w + 64
    ensures Whole(n) == w && n % 64 == n - w
  {
  }
}
