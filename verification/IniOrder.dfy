/** The case-insensitive order of section and key names. */
module IniOrder {

  /** `locase` */
  function Lower(c: char): char {
    if c < 'A' || c > 'Z' then c else (c as int - 'A' as int + 'a' as int) as char
  }

  /** The value of a signed 8-bit character. */
  function Code(c: char): int {
    if 128 <= c as int <= 255 then c as int - 256 else c as int
  }

  function Folded(s: string): (t: string)
    ensures |t| == |s| && forall i :: 0 <= i < |s| ==> t[i] == Lower(s[i])
  {
    seq(|s|, i requires 0 <= i < |s| => Lower(s[i]))
  }

  /** What `SI_GenericNoCase` decides about two strings. */
  predicate Less(left: string, right: string) {
    if left == "" || right == "" then right != ""
    else if Code(Lower(left[0])) != Code(Lower(right[0])) then Code(Lower(left[0])) < Code(Lower(right[0]))
    else Less(left[1..], right[1..])
  }

  /** `SI_GenericNoCase` */
  method IsLess(left: string, right: string) returns (less: bool)
    ensures less == Less(left, right)
  {
    hide Lower, Code;
    var i := 0;
    while i < |left| && i < |right|
      invariant i <= |left| && i <= |right|
      invariant Less(left, right) == Less(left[i..], right[i..])
    {
      var cmp := Code(Lower(left[i])) - Code(Lower(right[i]));
      if cmp != 0 {
        return cmp < 0;
      }
      i := i + 1;
    }
    less := i < |right|;
  }

  lemma CodeInjective(c: char, d: char)
    ensures Code(c) == Code(d) <==> c == d
  {
  }

  lemma FoldedTail(s: string)
    requires s != ""
    ensures Folded(s)[0] == Lower(s[0]) && Folded(s)[1..] == Folded(s[1..])
    ensures Folded(s) == [Lower(s[0])] + Folded(s[1..])
  {
    hide Lower;
  }

  /** Two names are unordered exactly when they differ in the case of letters only. */
  lemma {:induction false} UnorderedIsSameFolded(left: string, right: string)
    ensures !Less(left, right) && !Less(right, left) <==> Folded(left) == Folded(right)
  {
    hide Lower, Code, Folded;
    if left == "" || right == "" {
      FoldedEmpty(left);
      FoldedEmpty(right);
    } else {
      UnorderedIsSameFolded(left[1..], right[1..]);
      FoldedTail(left);
      FoldedTail(right);
      CodeInjective(Lower(left[0]), Lower(right[0]));
    }
  }

  /** Two characters are the same letter but for its case, or the same. */
  predicate SameLetter(c: char, d: char) {
    || c == d
    || ('A' <= c <= 'Z' && d as int == c as int + 32)
    || ('A' <= d <= 'Z' && c as int == d as int + 32)
  }

  /** Names fold to the same text exactly when they agree character by character, but for the case of ASCII letters. */
  lemma FoldedMeans(a: string, b: string)
    ensures Folded(a) == Folded(b) <==> |a| == |b| && forall i :: 0 <= i < |a| ==> SameLetter(a[i], b[i])
  {
    forall c, d
      ensures Lower(c) == Lower(d) <==> SameLetter(c, d)
    {
      LowerMeans(c, d);
    }
    hide Lower, SameLetter;
    var s, t := Folded(a), Folded(b);
    if s == t {
      assert forall i :: 0 <= i < |a| ==> Lower(a[i]) == s[i] == t[i] == Lower(b[i]);
    }
  }

  lemma LowerMeans(c: char, d: char)
    ensures Lower(c) == Lower(d) <==> SameLetter(c, d)
  {
  }

  /** Behind what folds to the same text, the first other letter decides: by its number in lower case, for ASCII. */
  lemma {:induction false} FirstDecides(a: string, b: string, c: char, d: char, x: string, y: string)
    requires Folded(a) == Folded(b)
    ensures Less(a, b + y) <==> y != ""
    ensures c as int < 128 && d as int < 128 && !SameLetter(c, d) ==>
              (Less(a + [c] + x, b + [d] + y) <==>
                 (if 'A' <= c <= 'Z' then c as int + 32 else c as int) < (if 'A' <= d <= 'Z' then d as int + 32 else d as int))
    decreases |a|
  {
    if a == "" {
      FoldedEmpty(b);
      assert b + y == y && a + [c] + x == [c] + x && b + [d] + y == [d] + y;
    } else {
      FoldedEmpty(b);
      FoldedTail(a);
      FoldedTail(b);
      hide Lower, Folded, SameLetter;
      assert Lower(a[0]) == Lower(b[0]);
      FirstDecides(a[1..], b[1..], c, d, x, y);
      assert (b + y)[1..] == b[1..] + y;
      assert (a + [c] + x)[1..] == a[1..] + [c] + x;
      assert (b + [d] + y)[1..] == b[1..] + [d] + y;
    }
  }

  lemma FoldedEmpty(s: string)
    ensures Folded(s) == "" <==> s == ""
  {
    assert |Folded(s)| == |s|;
  }

  lemma {:induction false} LessIrreflexive(s: string)
    ensures !Less(s, s)
  {
    if s != "" { LessIrreflexive(s[1..]); }
  }

  lemma {:induction false} LessTransitive(a: string, b: string, c: string)
    requires Less(a, b) && Less(b, c)
    ensures Less(a, c)
  {
    hide Lower, Code;
    if a != "" {
      if Code(Lower(a[0])) == Code(Lower(b[0])) == Code(Lower(c[0])) { LessTransitive(a[1..], b[1..], c[1..]); }
    }
  }

  /** With irreflexivity and transitivity, this makes the order a strict weak one. */
  lemma UnorderedTransitive(a: string, b: string, c: string)
    requires !Less(a, b) && !Less(b, a) && !Less(b, c) && !Less(c, b)
    ensures !Less(a, c) && !Less(c, a)
  {
    UnorderedIsSameFolded(a, b);
    UnorderedIsSameFolded(b, c);
    UnorderedIsSameFolded(a, c);
  }
}
