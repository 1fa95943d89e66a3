/**
 XOR masking of WebSocket payloads (section 5.3 of RFC 6455): byte by byte, in machine words,
 and in chunks that hand a rotated key from one call to the next. `little` is the byte order of
 the host; a machine word has four or eight octets; a buffer may be masked into itself.
 */
module Masking {
  import opened Bytes

  /** `sizeof(size_t)` */
  type word_size = n: int | n == 4 || n == 8 witness 8

  function Zeros(n: nat): (s: seq<byte>)
    ensures |s| == n && forall i :: 0 <= i < n ==> s[i] == 0
  {
    seq(n, _ => 0)
  }

  /**
   A `size_t` as its octets, least significant first. The code shifts words only by
   whole octets, so shifting moves octets and the bitwise operators work octet by octet.
   */
  type word = s: seq<byte> | |s| == 4 || |s| == 8 witness [0, 0, 0, 0, 0, 0, 0, 0]

  /** How many whole words there are in `n` octets, and how many octets are left. */
  function WholeWords(n: nat, size: word_size): nat {
    if size == 4 then n / 4 else n / 8
  }

  function Rest(n: nat, size: word_size): nat {
    if size == 4 then n % 4 else n % 8
  }

  /** Where word `i` starts. */
  function WordStart(i: nat, size: word_size): nat {
    if size == 4 then 4 * i else 8 * i
  }

  function XorByte(a: byte, b: byte): byte {
    a ^ b
  }

  function OrByte(a: byte, b: byte): byte {
    a | b
  }

  function Xor(a: word, b: word): (r: word)
    requires |a| == |b|
    ensures |r| == |a| && forall j :: 0 <= j < |a| ==> r[j] == XorByte(a[j], b[j])
  {
    seq(|a|, j requires 0 <= j < |a| => XorByte(a[j], b[j]))
  }

  function Or(a: word, b: word): (r: word)
    requires |a| == |b|
    ensures |r| == |a| && forall j :: 0 <= j < |a| ==> r[j] == OrByte(a[j], b[j])
  {
    seq(|a|, j requires 0 <= j < |a| => OrByte(a[j], b[j]))
  }

  /** `w << 8 * n` */
  function Shl(w: word, n: nat): (r: word)
    requires n < |w|
    ensures |r| == |w|
  {
    Zeros(n) + w[..|w| - n]
  }

  /** `w >> 8 * n` */
  function Shr(w: word, n: nat): (r: word)
    requires n < |w|
    ensures |r| == |w|
  {
    w[n..] + Zeros(n)
  }

  function Reversed<T>(s: seq<T>): (r: seq<T>)
    ensures |r| == |s| && forall j :: 0 <= j < |s| ==> r[j] == s[|s| - 1 - j]
  {
    seq(|s|, j requires 0 <= j < |s| => s[|s| - 1 - j])
  }

  /** The bytes of a word in memory order. */
  function WordBytes(w: word, little: bool): (s: seq<byte>)
    ensures |s| == |w|
  {
    if little then w else Reversed(w)
  }

  /** The word that bytes of memory hold. */
  function BytesWord(s: seq<byte>, little: bool): (w: word)
    requires |s| == 4 || |s| == 8
    ensures |w| == |s|
  {
    if little then s else Reversed(s)
  }

  // ----- Keys -----

  /** A masking key: its four bytes in memory order. */
  type key = s: seq<byte> | |s| == 4 witness [0, 0, 0, 0]

  /** The low octets of a word are the masking key read as a 32-bit integer. */
  function KeyInteger(k: key, little: bool, size: word_size): (w: word)
    ensures |w| == size
  {
    (if little then k else [k[3], k[2], k[1], k[0]]) + Zeros(size - 4)
  }

  /** `prepare_masking_key` */
  function PrepareKey(k: key, little: bool, size: word_size): (w: word)
    ensures |w| == size
  {
    var lowBits := KeyInteger(k, little, size);
    if size == 8 then Or(Shl(lowBits, 4), lowBits) else lowBits
  }

  /** `circshift_prepared_key` */
  function CircShift(k: word, offset: nat, little: bool): (w: word)
    requires offset < |k|
    ensures |w| == |k|
  {
    if offset == 0 then k
    else if little then Or(Shr(k, offset), Shl(k, |k| - offset))
    else Or(Shl(k, offset), Shr(k, |k| - offset))
  }

  // ----- The masking transformation of RFC 6455 -----

  /** Octet `i` of the transformed data is octet `i` of the data XOR octet `(offset + i) mod 4` of the key. */
  function Mask(data: seq<byte>, k: key, offset: nat): (r: seq<byte>)
    ensures |r| == |data|
  {
    seq(|data|, i requires 0 <= i < |data| => XorByte(data[i], k[(offset + i) % 4]))
  }

  /** Bit by bit: a bit of the data is turned over exactly where the bit of the key is set. */
  lemma MaskTurnsBits(data: seq<byte>, k: key, offset: nat, i: nat, bit: byte)
    requires i < |data|
    requires bit == 1 || bit == 2 || bit == 4 || bit == 8 || bit == 16 || bit == 32 || bit == 64 || bit == 128
    ensures Mask(data, k, offset)[i] & bit != data[i] & bit <==> k[(offset + i) % 4] & bit == bit
  {
    MaskedByte(data, k, offset, i);
    XorTurnsBits(data[i], k[(offset + i) % 4], bit);
    hide Mask, XorByte;
  }

  lemma XorTurnsBits(a: byte, b: byte, bit: byte)
    requires bit == 1 || bit == 2 || bit == 4 || bit == 8 || bit == 16 || bit == 32 || bit == 64 || bit == 128
    ensures XorByte(a, b) & bit != a & bit <==> b & bit == bit
  {
  }

  /** Masking twice with the same key gives the data back. */
  lemma MaskTwice(data: seq<byte>, k: key, offset: nat)
    ensures Mask(Mask(data, k, offset), k, offset) == data
  {
    var m := Mask(data, k, offset);
    forall i | 0 <= i < |data| ensures Mask(m, k, offset)[i] == data[i] {
      XorTwice(data[i], k[(offset + i) % 4]);
    }
  }

  lemma XorTwice(a: byte, b: byte)
    ensures XorByte(XorByte(a, b), b) == a
  {
  }

  lemma MaskAppend(a: seq<byte>, b: seq<byte>, k: key, offset: nat)
    ensures Mask(a + b, k, offset) == Mask(a, k, offset) + Mask(b, k, offset + |a|)
  {
    hide XorByte;
    assert forall i {:trigger b[i]} :: 0 <= i < |b| ==> offset + (|a| + i) == offset + |a| + i;
  }

  // ----- Prepared keys -----

  /** A prepared key holds the bytes of the masking key over and over, starting at byte `offset`. */
  predicate Holds(p: word, k: key, offset: nat, little: bool) {
    Repeats(WordBytes(p, little), k, offset)
  }

  predicate Repeats<T(==)>(b: seq<T>, k: seq<T>, offset: nat)
    requires |k| == 4
  {
    forall j :: 0 <= j < |b| ==> b[j] == k[(offset + j) % 4]
  }

  lemma KeyRepeats<T>(k: seq<T>)
    requires |k| == 4
    ensures Repeats(k, k, 0) && Repeats(k + k, k, 0)
  {
    forall j | 0 <= j < 8 ensures (k + k)[j] == k[(0 + j) % 4] {
      if j >= 4 { assert j % 4 == j - 4; }
    }
  }

  lemma RotationRepeats<T>(b: seq<T>, k: seq<T>, offset: nat, n: nat)
    requires |b| == 4 || |b| == 8
    requires |k| == 4 && n < |b| && Repeats(b, k, offset)
    ensures Repeats(b[n..] + b[..n], k, offset + n)
  {
    forall j | 0 <= j < |b| ensures (b[n..] + b[..n])[j] == k[(offset + n + j) % 4] {
      if j + n >= |b| {
        Mod4Periodic(offset + (j + n - |b|), if |b| == 4 then 1 else 2);
        assert b[j + n - |b|] == k[(offset + (j + n - |b|)) % 4];
      } else {
        assert b[j + n] == k[(offset + (j + n)) % 4];
      }
    }
  }

  lemma Mod4Periodic(a: int, q: int)
    ensures (a + 4 * q) % 4 == a % 4
  {
  }

  lemma ReversedRotation<T>(p: seq<T>, n: nat)
    requires n < |p|
    ensures Reversed(p[|p| - n..] + p[..|p| - n]) == Reversed(p)[n..] + Reversed(p)[..n]
  {
  }

  lemma OrZero(b: byte)
    ensures OrByte(b, 0) == b && OrByte(0, b) == b
  {
  }

  lemma OrZeros(p: seq<byte>)
    ensures forall j :: 0 <= j < |p| ==> OrByte(p[j], 0) == p[j] && OrByte(0, p[j]) == p[j]
  {
    forall j | 0 <= j < |p| ensures OrByte(p[j], 0) == p[j] && OrByte(0, p[j]) == p[j] {
      OrZero(p[j]);
    }
  }

  /** Octets that do not overlap are joined side by side. */
  lemma OrJoins(a: seq<byte>, b: seq<byte>)
    requires |a| + |b| == 4 || |a| + |b| == 8
    ensures Or(a + Zeros(|b|), Zeros(|a|) + b) == a + b == Or(Zeros(|a|) + b, a + Zeros(|b|))
  {
    hide OrByte, Or;
    OrZeros(a);
    OrZeros(b);
  }

  /** Joining the low half of a long word with the same half shifted up repeats it; a short word is the key. */
  lemma PrepareKeyHolds(k: key, little: bool, size: word_size)
    ensures Holds(PrepareKey(k, little, size), k, 0, little)
  {
    hide OrByte, Or, Repeats, Reversed;
    KeyRepeats<byte>(k);
    var m := if little then k else [k[3], k[2], k[1], k[0]];
    ReversedKey(k);
    assert m + Zeros(0) == m;
    if size == 8 {
      OrJoins(m, m);
      assert (m + Zeros(4))[..4] == m;
    }
  }

  lemma ReversedKey(k: key)
    ensures var m := [k[3], k[2], k[1], k[0]]; Reversed(m) == k && Reversed(m + m) == k + k
  {
  }

  /** Rotating by `n` octets moves every byte `n` places toward the front of memory. */
  lemma CircShiftRotates(p: word, n: nat, little: bool)
    requires n < |p|
    ensures WordBytes(CircShift(p, n, little), little) == WordBytes(p, little)[n..] + WordBytes(p, little)[..n]
  {
    hide CircShift, Reversed;
    if n > 0 {
      CircShiftJoins(p, n, little);
      if !little { ReversedRotation<byte>(p, n); }
    } else {
      assert CircShift(p, 0, little) == p by { NoShift(p, little); }
    }
  }

  lemma NoShift(p: word, little: bool)
    ensures CircShift(p, 0, little) == p
  {
  }

  lemma CircShiftJoins(p: word, n: nat, little: bool)
    requires 0 < n < |p|
    ensures CircShift(p, n, little) == if little then p[n..] + p[..n] else p[|p| - n..] + p[..|p| - n]
  {
    hide OrByte, Or;
    if little { OrJoins(p[n..], p[..n]); } else { OrJoins(p[|p| - n..], p[..|p| - n]); }
  }

  lemma CircShiftHolds(p: word, k: key, offset: nat, n: nat, little: bool)
    requires n < |p| && Holds(p, k, offset, little)
    ensures Holds(CircShift(p, n, little), k, offset + n, little)
  {
    hide CircShift, WordBytes, Repeats;
    CircShiftRotates(p, n, little);
    RotationRepeats<byte>(WordBytes(p, little), k, offset, n);
  }

  // ----- The masking loops -----

  /** What the circular word mask writes: word after word is combined with the same prepared key. */
  function CircMask(data: seq<byte>, p: word, little: bool): (r: seq<byte>)
    ensures |r| == |data|
  {
    seq(|data|, i requires 0 <= i < |data| => XorByte(data[i], WordBytes(p, little)[Rest(i, |p|)]))
  }

  /** Masking a word masks its bytes. */
  lemma {:induction false} XorWord(s: seq<byte>, p: word, little: bool, j: nat)
    requires |s| == |p| && j < |s|
    ensures WordBytes(Xor(BytesWord(s, little), p), little)[j] == XorByte(s[j], WordBytes(p, little)[j])
  {
    hide XorByte, Xor, Reversed;
  }

  method StoreWord(output: array<byte>, at: nat, b: seq<byte>)
    requires at + |b| <= output.Length
    modifies output
    ensures forall k :: 0 <= k < output.Length ==>
              output[k] == if at <= k < at + |b| then b[k - at] else old(output[k])
  {
    for j := 0 to |b|
      invariant forall k :: 0 <= k < output.Length ==>
                  output[k] == if at <= k < at + j then b[k - at] else old(output[k])
    {
      output[at + j] := b[j];
    }
  }

  lemma FirstWord(size: word_size)
    ensures WordStart(0, size) == 0
  {
  }

  lemma WordsOrdered(i: nat, n: nat, size: word_size)
    requires i <= n
    ensures WordStart(i, size) <= WordStart(n, size)
  {
  }

  lemma NextWord(i: nat, size: word_size)
    ensures WordStart(i + 1, size) == WordStart(i, size) + size
  {
  }

  lemma InWord(i: nat, size: word_size, j: nat)
    requires j < size
    ensures Rest(WordStart(i, size) + j, size) == j
  {
  }

  lemma WordOfMask(data: seq<byte>, p: word, little: bool, i: nat)
    requires WordStart(i + 1, |p|) <= |data|
    ensures var at, next := WordStart(i, |p|), WordStart(i + 1, |p|);
            next == at + |p|
            && CircMask(data, p, little)[at..next] == WordBytes(Xor(BytesWord(data[at..next], little), p), little)
  {
    hide XorByte, Xor, WordBytes, BytesWord, CircMask;
    NextWord(i, |p|);
    hide WordStart, Rest;
    var at := WordStart(i, |p|);
    var s := data[at..at + |p|];
    forall j | 0 <= j < |p|
      ensures CircMask(data, p, little)[at + j] == WordBytes(Xor(BytesWord(s, little), p), little)[j]
    {
      InWord(i, |p|, j);
      XorWord(s, p, little, j);
      CircMaskedByte(data, p, little, at + j);
    }
  }

  /** `output_word[i] = input_word[i] ^ prepared_key` for the first `n` words; the buffers may be the same. */
  method MaskWords(input: array<byte>, output: array<byte>, n: nat, p: word, little: bool, ghost data: seq<byte>)
    requires WordStart(n, |p|) <= |data| <= input.Length && |data| <= output.Length && input[..|data|] == data
    modifies output
    ensures output[..WordStart(n, |p|)] == CircMask(data, p, little)[..WordStart(n, |p|)]
    ensures forall k :: WordStart(n, |p|) <= k < output.Length ==> output[k] == old(output[k])
    ensures forall k :: WordStart(n, |p|) <= k < |data| ==> input[k] == data[k]
  {
    hide CircMask, Xor, XorByte, WordBytes, BytesWord, WordStart, Rest;
    ghost var masked, was := CircMask(data, p, little), output[..];
    FirstWord(|p|);
    for i := 0 to n
      invariant WordStart(i, |p|) <= WordStart(n, |p|)
      invariant forall k :: 0 <= k < WordStart(i, |p|) ==> output[k] == masked[k]
      invariant forall k :: WordStart(i, |p|) <= k < output.Length ==> output[k] == was[k]
      invariant forall k :: WordStart(i, |p|) <= k < |data| ==> input[k] == data[k]
    {
      var at := WordStart(i, |p|);
      WordsOrdered(i + 1, n, |p|);
      WordOfMask(data, p, little, i);
      var s := input[at..at + |p|];
      assert forall j :: 0 <= j < |p| ==> s[j] == data[at + j];
      assert s == data[at..at + |p|];
      assert forall k :: at <= k < at + |p| ==> masked[k] == masked[at..at + |p|][k - at];
      StoreWord(output, at, WordBytes(Xor(BytesWord(s, little), p), little));
    }
  }

  lemma MaskedByte(data: seq<byte>, k: key, offset: nat, i: nat)
    requires i < |data|
    ensures Mask(data, k, offset)[i] == XorByte(data[i], k[(offset + i) % 4])
  {
  }

  lemma CircMaskedByte(data: seq<byte>, p: word, little: bool, i: nat)
    requires i < |data|
    ensures CircMask(data, p, little)[i] == XorByte(data[i], WordBytes(p, little)[Rest(i, |p|)])
  {
  }

  /** `byte_mask` */
  method ByteMask(input: array<byte>, output: array<byte>, length: nat, k: key, keyOffset: nat)
    requires length <= input.Length && length <= output.Length
    modifies output
    ensures output[..length] == Mask(old(input[..length]), k, keyOffset)
    ensures output[length..] == old(output[length..])
  {
    hide XorByte, Mask;
    ghost var data := input[..length];
    ghost var masked := Mask(data, k, keyOffset);
    var keyIndex := keyOffset % 4;
    for i := 0 to length
      invariant keyIndex == (keyOffset + i) % 4
      invariant forall j :: 0 <= j < i ==> output[j] == masked[j]
      invariant forall j :: i <= j < output.Length ==> output[j] == old(output[j])
      invariant forall j :: i <= j < length ==> input[j] == data[j]
    {
      MaskedByte(data, k, keyOffset, i);
      output[i] := XorByte(input[i], k[keyIndex]);
      keyIndex := (keyIndex + 1) % 4;
    }
  }

  lemma WordsAndRest(n: nat, size: word_size)
    ensures var m := WordStart(WholeWords(n, size), size);
            m <= n && n - m == Rest(n, size) < size
  {
  }

  /** `word_mask_exact` */
  method WordMaskExact(input: array<byte>, output: array<byte>, length: nat, k: key, little: bool, size: word_size)
    requires length <= input.Length && length <= output.Length
    modifies output
    ensures output[..length] == Mask(old(input[..length]), k, 0)
    ensures output[length..] == old(output[length..])
  {
    hide XorByte, CircMask, PrepareKey, Mask, Holds, WholeWords, WordStart, Rest;
    ghost var data, was := input[..length], output[..];
    ghost var masked := Mask(data, k, 0);
    assert was[length..] == output[length..];
    var p := PrepareKey(k, little, size);
    PrepareKeyHolds(k, little, size);
    CircMaskIsMask(data, p, k, 0, little);
    var n := WholeWords(length, size);
    WordsAndRest(length, size);
    MaskWords(input, output, n, p, little, data);
    var start := WordStart(n, size);
    assert forall j :: 0 <= j < start ==> output[j] == output[..start][j] == masked[j];
    for i := start to length
      invariant forall j :: 0 <= j < i ==> output[j] == masked[j]
      invariant forall j :: i <= j < output.Length ==> output[j] == was[j]
      invariant forall j :: i <= j < length ==> input[j] == data[j]
    {
      MaskedByte(data, k, 0, i);
      output[i] := XorByte(input[i], k[i % 4]);
    }
    assert output[..length] == masked;
    assert output[length..] == was[length..];
  }

  /** `word_mask_circ`; only the first `length` bytes of the output change. */
  method WordMaskCirc(input: array<byte>, output: array<byte>, length: nat, p: word, little: bool) returns (next: word)
    requires length <= input.Length && length <= output.Length
    modifies output
    ensures output[..length] == CircMask(old(input[..length]), p, little)
    ensures output[length..] == old(output[length..])
    ensures Rest(length, |p|) < |p| && next == CircShift(p, Rest(length, |p|), little)
  {
    hide XorByte, WordBytes, CircShift, CircMask, WholeWords, WordStart, Rest;
    ghost var data, was := input[..length], output[..];
    ghost var masked := CircMask(data, p, little);
    assert was[length..] == output[length..];
    var n := WholeWords(length, |p|);
    var l := length - WordStart(n, |p|);
    WordsAndRest(length, |p|);
    MaskWords(input, output, n, p, little, data);
    var start := length - l;
    assert forall j :: 0 <= j < start ==> output[j] == output[..start][j] == masked[j];
    var byteKey := WordBytes(p, little);
    for i := 0 to l
      invariant forall j :: 0 <= j < start + i ==> output[j] == masked[j]
      invariant forall j :: start + i <= j < output.Length ==> output[j] == was[j]
      invariant forall j :: start + i <= j < length ==> input[j] == data[j]
    {
      CircMaskedByte(data, p, little, start + i);
      InWord(n, |p|, i);
      output[start + i] := XorByte(input[start + i], byteKey[i]);
    }
    assert output[..length] == masked;
    assert output[length..] == was[length..];
    next := CircShift(p, l, little);
  }

  /** The first four bytes of the 32-bit integer that the low half of a word holds. */
  function LowBytes(p: word, little: bool): key {
    if little then p[..4] else [p[3], p[2], p[1], p[0]]
  }

  /** `byte_mask_circ` */
  method ByteMaskCirc(input: array<byte>, output: array<byte>, length: nat, p: word, little: bool) returns (next: word)
    requires length <= input.Length && length <= output.Length
    modifies output
    ensures output[..length] == Mask(old(input[..length]), LowBytes(p, little), 0)
    ensures output[length..] == old(output[length..])
    ensures next == CircShift(p, length % 4, little)
  {
    hide XorByte, LowBytes, CircShift, Mask;
    ghost var data := input[..length];
    var k := LowBytes(p, little);
    ghost var masked := Mask(data, k, 0);
    for i := 0 to length
      invariant forall j :: 0 <= j < i ==> output[j] == masked[j]
      invariant forall j :: i <= j < output.Length ==> output[j] == old(output[j])
      invariant forall j :: i <= j < length ==> input[j] == data[j]
    {
      MaskedByte(data, k, 0, i);
      output[i] := XorByte(input[i], k[i % 4]);
    }
    next := CircShift(p, length % 4, little);
  }

  // ----- One call -----

  lemma RestPeriodic(offset: nat, i: nat, size: word_size)
    ensures (offset + Rest(i, size)) % 4 == (offset + i) % 4
  {
    Mod4Periodic(offset + i % 8, 2 * (i / 8));
    Mod4Periodic(offset + i % 4, i / 4);
  }

  lemma CircMaskIsMask(data: seq<byte>, p: word, k: key, offset: nat, little: bool)
    requires Holds(p, k, offset, little)
    ensures CircMask(data, p, little) == Mask(data, k, offset)
  {
    hide XorByte, WordBytes;
    forall i | 0 <= i < |data| ensures CircMask(data, p, little)[i] == Mask(data, k, offset)[i] {
      RestPeriodic(offset, i, |p|);
    }
  }

  /** A prepared key hands on exactly the position that the next byte of the stream has in the masking key. */
  lemma NextKeyHolds(p: word, k: key, offset: nat, n: nat, little: bool)
    requires Holds(p, k, offset, little)
    ensures Rest(n, |p|) < |p| && Holds(CircShift(p, Rest(n, |p|), little), k, offset + n, little)
    ensures Holds(CircShift(p, n % 4, little), k, offset + n, little)
  {
    hide Holds, CircShift;
    CircShiftHolds(p, k, offset, Rest(n, |p|), little);
    CircShiftHolds(p, k, offset, n % 4, little);
    HoldsLater(CircShift(p, Rest(n, |p|), little), k, offset + Rest(n, |p|), if |p| == 4 then n / 4 else n / 8 * 2, little);
    HoldsLater(CircShift(p, n % 4, little), k, offset + n % 4, n / 4, little);
  }

  lemma HoldsLater(p: word, k: key, offset: nat, q: nat, little: bool)
    requires Holds(p, k, offset, little)
    ensures Holds(p, k, offset + 4 * q, little)
  {
    hide WordBytes;
    forall j | 0 <= j < |p| ensures WordBytes(p, little)[j] == k[(offset + 4 * q + j) % 4] {
      Mod4Periodic(offset + j, q);
    }
  }

  lemma LowBytesMask(data: seq<byte>, p: word, k: key, offset: nat, little: bool)
    requires Holds(p, k, offset, little)
    ensures Mask(data, LowBytes(p, little), 0) == Mask(data, k, offset)
  {
    hide XorByte, LowBytes, Holds;
    forall i | 0 <= i < |data| ensures LowBytes(p, little)[i % 4] == k[(offset + i) % 4] {
      LowByte(p, k, offset, little, i % 4);
      Mod4Periodic(offset + i % 4, i / 4);
    }
  }

  lemma LowByte(p: word, k: key, offset: nat, little: bool, j: nat)
    requires Holds(p, k, offset, little) && j < 4
    ensures LowBytes(p, little)[j] == k[(offset + j) % 4]
  {
    var b := WordBytes(p, little);
    var at := if little then j else |p| - 4 + j;
    Mod4Periodic(offset + j, 1);
    assert b[at] == k[(offset + at) % 4];
  }

  // ----- A stream of chunks -----

  /** One chunk of a stream, and which of the two circular masks it goes through. */
  datatype Chunk = Chunk(data: seq<byte>, byWords: bool)

  function Stream(chunks: seq<Chunk>): seq<byte> {
    if chunks == [] then [] else chunks[0].data + Stream(chunks[1..])
  }

  /** Masks chunk after chunk, each with the prepared key that the call before it returned. */
  function MaskChunks(chunks: seq<Chunk>, p: word, little: bool): seq<byte> {
    if chunks == [] then []
    else
      var c := chunks[0];
      if c.byWords then
        CircMask(c.data, p, little) + MaskChunks(chunks[1..], CircShift(p, Rest(|c.data|, |p|), little), little)
      else
        Mask(c.data, LowBytes(p, little), 0) + MaskChunks(chunks[1..], CircShift(p, |c.data| % 4, little), little)
  }

  /** However a stream is cut into chunks, and whichever circular mask each goes through, the result is the plain mask. */
  lemma {:induction false} MaskChunksIsMask(chunks: seq<Chunk>, p: word, k: key, offset: nat, little: bool)
    requires Holds(p, k, offset, little)
    ensures MaskChunks(chunks, p, little) == Mask(Stream(chunks), k, offset)
  {
    hide Holds, CircMask, LowBytes, CircShift, Mask;
    if chunks == [] {
    } else {
      var c, n := chunks[0], |chunks[0].data|;
      MaskAppend(c.data, Stream(chunks[1..]), k, offset);
      NextKeyHolds(p, k, offset, n, little);
      CircMaskIsMask(c.data, p, k, offset, little);
      LowBytesMask(c.data, p, k, offset, little);
      MaskChunksIsMask(chunks[1..], CircShift(p, if c.byWords then Rest(n, |p|) else n % 4, little), k, offset + n, little);
    }
  }

  /** Starting from `prepare_masking_key`, a chunked stream is masked as a whole from the first key byte. */
  lemma PreparedStream(chunks: seq<Chunk>, k: key, little: bool, size: word_size)
    ensures MaskChunks(chunks, PrepareKey(k, little, size), little) == Mask(Stream(chunks), k, 0)
  {
    hide Holds, PrepareKey, MaskChunks, Mask;
    PrepareKeyHolds(k, little, size);
    MaskChunksIsMask(chunks, PrepareKey(k, little, size), k, 0, little);
  }
}
