/** Character strings: decimal numerals, and splitting at a separator. */
module Text {

  // ----- Decimal numerals -----

  predicate IsDigit(c: char) {
    '0' <= c <= '9'
  }

  predicate IsNumeral(s: string) {
    forall i :: 0 <= i < |s| ==> IsDigit(s[i])
  }

  function DigitValue(c: char): nat
    requires IsDigit(c)
  {
    c as int - '0' as int
  }

  function DigitChar(d: nat): (c: char)
    requires d < 10
    ensures IsDigit(c) && DigitValue(c) == d
  {
    (d + '0' as int) as char
  }

  /** The decimal numeral of `n`, as the standard output stream writes it. */
  function Digits(n: nat): (s: string)
    ensures 1 <= |s| && IsNumeral(s)
  {
    if n < 10 then [DigitChar(n)] else Digits(n / 10) + [DigitChar(n % 10)]
  }

  /** The value of a string of digits, read from the left. */
  function Number(s: string): nat
    requires IsNumeral(s)
  {
    if |s| == 0 then 0 else 10 * Number(s[..|s| - 1]) + DigitValue(s[|s| - 1])
  }

  /** The numeral of a number reads back as the number. */
  lemma {:induction false} NumberOfDigits(n: nat)
    ensures Number(Digits(n)) == n
  {
    if n >= 10 {
      NumberOfDigits(n / 10);
      assert Digits(n)[..|Digits(n)| - 1] == Digits(n / 10);
    }
  }

  function Pow10(k: nat): (p: nat)
    ensures p >= 1
  {
    if k == 0 then 1 else 10 * Pow10(k - 1)
  }

  /** Each digit counts ten times the digit behind it. */
  lemma {:induction false} NumberJoins(a: string, b: string)
    requires IsNumeral(a) && IsNumeral(b)
    ensures IsNumeral(a + b) && Number(a + b) == Number(a) * Pow10(|b|) + Number(b)
  {
    if b == [] {
      assert a + b == a;
    } else {
      var c := b[..|b| - 1];
      NumberJoins(a, c);
      assert (a + b)[..|a + b| - 1] == a + c;
      TenTimes(Number(a), Pow10(|c|), Number(c));
    }
  }

  lemma TenTimes(x: nat, p: nat, y: nat)
    ensures 10 * (x * p + y) == x * (10 * p) + 10 * y
  {
  }

  /** The digits of ASCII count from 48 on. */
  lemma NumberOfDigit(c: char)
    requires 48 <= c as int <= 57
    ensures IsNumeral([c]) && Number([c]) == c as int - 48
  {
    assert [c][..0] == [];
  }

  /** Leading zeros do not change the value. */
  lemma {:induction false} LeadingZeros(k: nat, s: string)
    requires IsNumeral(s)
    ensures IsNumeral(Zeros(k) + s) && Number(Zeros(k) + s) == Number(s)
  {
    var t := Zeros(k) + s;
    if |s| > 0 {
      LeadingZeros(k, s[..|s| - 1]);
      assert t[..|t| - 1] == Zeros(k) + s[..|s| - 1];
    } else if k > 0 {
      LeadingZeros(k - 1, s);
      assert t[..|t| - 1] == Zeros(k - 1) + s;
    }
  }

  function Zeros(k: nat): (s: string)
    ensures |s| == k && forall i :: 0 <= i < k ==> s[i] == '0'
  {
    seq(k, _ => '0')
  }

  /** A numeral has more than `k` digits exactly when the number reaches ten to the `k`. */
  lemma {:induction false} DigitCount(n: nat, k: nat)
    requires k >= 1
    ensures |Digits(n)| > k <==> n >= Pow10(k)
  {
    if n >= 10 {
      if k > 1 {
        DigitCount(n / 10, k - 1);
        assert n / 10 >= Pow10(k - 1) <==> n >= 10 * Pow10(k - 1);
      }
    } else {
      PowAtLeastTen(k);
    }
  }

  lemma {:induction false} NumberBound(s: string)
    requires IsNumeral(s)
    ensures Number(s) < Pow10(|s|)
  {
    if |s| > 0 { NumberBound(s[..|s| - 1]); }
  }

  lemma {:induction false} PowAtLeastTen(k: nat)
    requires k >= 1
    ensures Pow10(k) >= 10
  {
    if k > 1 { PowAtLeastTen(k - 1); }
  }

  // ----- Splitting -----

  /** The first position of `c` in `s`, or the length of `s` when there is none. */
  function IndexOf(s: string, c: char): (i: nat)
    ensures i <= |s| && (i < |s| ==> s[i] == c)
    ensures forall k :: 0 <= k < i ==> s[k] != c
  {
    if |s| == 0 || s[0] == c then 0 else 1 + IndexOf(s[1..], c)
  }

  /** All fields of `s` between separators `c`: one more than there are separators. */
  function Split(s: string, c: char): (fields: seq<string>)
    ensures |fields| >= 1
    ensures forall k :: 0 <= k < |fields| ==> c !in fields[k]
    decreases |s|
  {
    var i := IndexOf(s, c);
    if i == |s| then [s] else [s[..i]] + Split(s[i + 1..], c)
  }

  function Join(fields: seq<string>, c: char): string
    requires |fields| >= 1
  {
    if |fields| == 1 then fields[0] else fields[0] + [c] + Join(fields[1..], c)
  }

  lemma JoinOne(s: string, c: char)
    ensures Join([s], c) == s
  {
  }

  lemma JoinFirst(s: string, rest: seq<string>, c: char)
    requires |rest| >= 1
    ensures Join([s] + rest, c) == s + [c] + Join(rest, c)
  {
    assert ([s] + rest)[1..] == rest;
  }

  lemma IndexOfFound(a: string, c: char, b: string)
    requires c !in a
    ensures IndexOf(a + [c] + b, c) == |a|
  {
    var s := a + [c] + b;
    assert s[|a|] == c;
    assert forall k :: 0 <= k < |a| ==> s[k] == a[k];
  }

  lemma IndexOfMissing(s: string, c: char)
    requires c !in s
    ensures IndexOf(s, c) == |s|
  {
    var i := IndexOf(s, c);
  }

  /** A field without a separator, followed by one, is the first field. */
  lemma SplitFirst(a: string, c: char, b: string)
    requires c !in a
    ensures Split(a + [c] + b, c) == [a] + Split(b, c)
  {
    IndexOfFound(a, c, b);
    var s := a + [c] + b;
    assert s[..|a|] == a && s[|a| + 1..] == b;
  }

  lemma SplitSingle(s: string, c: char)
    requires c !in s
    ensures Split(s, c) == [s]
  {
    IndexOfMissing(s, c);
  }

  /** Joining the fields gives the text back. */
  lemma {:induction false} JoinSplit(s: string, c: char)
    ensures Join(Split(s, c), c) == s
    decreases |s|
  {
    hide IndexOf, Join;
    var i := IndexOf(s, c);
    if i < |s| {
      var rest := Split(s[i + 1..], c);
      JoinSplit(s[i + 1..], c);
      JoinFirst(s[..i], rest, c);
      assert s == s[..i] + [c] + s[i + 1..];
    } else {
      JoinOne(s, c);
    }
  }
}
