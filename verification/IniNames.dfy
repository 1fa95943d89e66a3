/**
  * A section name with a newline comes from a header that is not closed on its line. Written as a header of its own
  * it is not read back: the bracket that is printed behind it stays in the text.
  */
module IniNames {
  import opened Options
  import opened IniOrder
  import opened IniLines
  import opened IniParser
  import opened IniStore

  /** The data behind an opening bracket, up to the next key: a name, its closing bracket, and lines without headers. */
  ghost predicate Front(name: string, front: string) {
    && |name| < |front| && front[..|name|] == name && front[|name|] == ']'
    && front[|front| - 1] == '\n' && HeaderFree(front)
  }

  /** Data that starts with a key. */
  predicate KeyFirst(r: string) {
    && StartsKey(r) && !IsSpace(r[0])
    && 0 < MarkEnd(r, '=') < |r| && r[MarkEnd(r, '=')] == '='
  }

  lemma ItemKeyFirst(item: Item, rest: string, multiLine: bool)
    requires CleanKey(item.key)
    ensures KeyFirst(ItemText(item, multiLine) + rest)
  {
    hide MarkEnd, ValueText, SpaceCount, Trimmed;
    var after := " " + ValueText(item.value, multiLine) + "\n" + rest;
    assert ItemText(item, multiLine) + rest == item.key + " =" + after;
    KeyEnd(item.key, after);
  }

  // ----- What a name is not -----

  lemma {:induction false} TrimmedRest(s: string)
    ensures forall k :: |Trimmed(s)| <= k < |s| ==> IsSpace(s[k])
  {
    if s != "" && IsSpace(s[|s| - 1]) {
      TrimmedRest(s[..|s| - 1]);
      assert forall k :: 0 <= k < |s| - 1 ==> s[..|s| - 1][k] == s[k];
    }
  }

  /** A comment copies what it has read, or drops the newline at its end. */
  lemma {:induction false} CommentGrows(s: string, output: string)
    requires output != "" || (s != "" && IsComment(s[0]))
    ensures var text := Comments(s, true, output).text;
            && (output <= text || (output != "" && text == output[..|output| - 1]))
            && (s != "" && IsComment(s[0]) ==> output + [s[0]] <= text)
    decreases |s|
  {
    hide AfterLine, NewLineCount, SpaceCount, LineEnd;
    if s == "" || !IsComment(s[0]) {
      var k := SpaceCount(s);
      if k < |s| && IsComment(s[k]) { CommentGrows(s[k..], output + Lines(NewLineCount(s[..k]))); }
    } else {
      var n := LineEnd(s);
      FirstKept(s);
      if n < |s| { CommentGrows(AfterLine(s, n), output + s[..n] + "\n"); }
    }
  }

  /** A comment that equals the data it is read from ends at the end of a line. */
  lemma {:induction false} CommentPrefix(s: string, output: string, m: nat)
    requires output != "" || (s != "" && IsComment(s[0]))
    requires m <= |s| && Comments(s, true, output).text == output + s[..m]
    ensures m < |s| ==> IsNewLine(s[m])
    decreases |s|
  {
    hide AfterLine, NewLineCount, SpaceCount, LineEnd;
    if s == "" || !IsComment(s[0]) {
      var k := SpaceCount(s);
      if k < |s| && IsComment(s[k]) {
        var c := NewLineCount(s[..k]);
        CommentGrows(s[k..], output + Lines(c));
        BlankCopied(s, output, m, k, c);
        CommentPrefix(s[k..], output + Lines(c), m - k);
      }
    } else {
      var n := LineEnd(s);
      if n < |s| {
        var more := output + s[..n] + "\n";
        CommentGrows(AfterLine(s, n), more);
        if more <= Comments(s, true, output).text {
          LineCopied(s, output, m, n);
          CommentPrefix(AfterLine(s, n), more, m - n - 1);
        } else {
          assert more[..|more| - 1] == output + s[..n];
        }
      }
    }
  }

  lemma BlankCopied(s: string, output: string, m: nat, k: nat, c: nat)
    requires c <= k < |s| && m <= |s| && IsComment(s[k]) && forall i :: 0 <= i < k ==> IsSpace(s[i])
    requires output + Lines(c) + [s[k]] <= output + s[..m]
    ensures c == k <= m && output + Lines(c) + s[k..][..m - k] == output + s[..m]
  {
    var text := output + s[..m];
    assert s[c] == text[|output| + c] == (output + Lines(c) + [s[k]])[|output| + c];
    assert forall i :: 0 <= i < c ==> s[i] == text[|output| + i] == (output + Lines(c) + [s[k]])[|output| + i] == Lines(c)[i];
    assert s[..m] == s[..k] + s[k..][..m - k];
  }

  lemma LineCopied(s: string, output: string, m: nat, n: nat)
    requires n < |s| && m <= |s|
    requires output + s[..n] + "\n" <= output + s[..m]
    ensures n < m && AfterLine(s, n) == s[n + 1..]
    ensures output + s[..n] + "\n" + s[n + 1..][..m - n - 1] == output + s[..m]
  {
    assert |output + s[..n] + "\n"| == |output| + n + 1 <= |output + s[..m]|;
    assert s[n] == (output + s[..m])[|output| + n] == (output + s[..n] + "\n")[|output| + n];
    assert s[..m] == s[..n] + [s[n]] + s[n + 1..][..m - n - 1];
  }

  /** A name that ends in front of a character that is no bracket is another name. */
  lemma OtherName(name: string, front: string, r: string, b: nat, last: string)
    requires Front(name, front)
    requires var u := front + r; b < |u| && last <= u[b..] && |last| < |u[b..]| && u[b..][|last|] != ']'
    ensures (front + r)[..b] + last != name
  {
    hide HeaderFree;
    var u := front + r;
    assert u[|name|] == front[|name|] == ']';
    assert u[b..][|last|] == u[b + |last|];
    assert |u[..b] + last| == b + |last|;
  }

  lemma KeyNamesOther(name: string, front: string, r: string, b: nat, n: nat)
    requires Front(name, front) && b < |front + r|
    requires var t := (front + r)[b..]; n < |t| && t[n] == '='
    ensures (front + r)[..b] + Trimmed((front + r)[b..][..n]) != name
  {
    hide Front, Trimmed;
    var t := (front + r)[b..];
    var key := Trimmed(t[..n]);
    TrimmedRest(t[..n]);
    assert key <= t && (|key| < n ==> t[..n][|key|] == t[|key|]);
    OtherName(name, front, r, b, key);
  }

  lemma CommentNamesOther(name: string, front: string, r: string, b: nat)
    requires Front(name, front) && b < |front + r| && IsComment((front + r)[b])
    ensures (front + r)[..b] + Comments((front + r)[b..], true, "").text != name
  {
    hide Comments, HeaderFree;
    var u := front + r;
    var t := u[b..];
    var text := Comments(t, true, "").text;
    if u[..b] + text == name {
      var m := |text|;
      assert u[..|name|] == name && u[|name|] == ']' && t[m] == u[b + m];
      assert text == name[b..] == u[b..|name|] == t[..m];
      assert "" + t[..m] == text;
      CommentPrefix(t, "", m);
    }
  }

  // ----- Reading on under the printed name -----

  /** A newline is next, or just behind. */
  predicate LineBreak(u: string, a: nat)
    requires a <= |u|
  {
    (a < |u| && IsNewLine(u[a])) || (a > 0 && IsNewLine(u[a - 1]))
  }

  /** The next character that is not white is no bracket of a header. */
  lemma NoHeaderHere(front: string, r: string, a: nat) returns (b: nat)
    requires HeaderFree(front) && KeyFirst(r) && a <= |front| && LineBreak(front + r, a)
    ensures var u := front + r;
            && a <= b <= |front| < |u| && Start(u[a..]) == u[b..] && !IsSpace(u[b]) && u[b] != '['
            && (IsNewLine(u[a]) ==> a < b) && (IsComment(u[b]) ==> b < |front|)
            && forall i :: a <= i < b ==> IsSpace(u[i])
  {
    var u := front + r;
    hide SpaceCount, HeaderFree, MarkEnd;
    var k := SpaceCount(u[a..]);
    b := a + k;
    assert u[|front|] == r[0] == u[a..][|front| - a];
    assert forall i :: a <= i < b ==> u[i] == u[a..][i - a];
    assert b < |u| ==> u[b] == u[a..][k];
    if b < |front| { LineStartsHere(front, r, a, b); }
  }

  lemma LineStartsHere(front: string, r: string, a: nat, b: nat)
    requires HeaderFree(front) && a <= b < |front| && LineBreak(front + r, a)
    requires !IsSpace(front[b]) && forall i :: a <= i < b ==> IsSpace((front + r)[i])
    ensures front[b] != '['
  {
    var u := front + r;
    var q := if IsNewLine(u[a]) then a else a - 1;
    assert forall i :: 0 <= i < |front| ==> u[i] == front[i];
    assert IsNewLine(front[q]);
    assert LineStart(front, b);
  }

  /** Comments end at a line break in front of the next key. */
  lemma {:induction false} CommentsStop(u: string, a: nat, c: nat, output: string) returns (b: nat)
    requires 0 < c < |u| && a <= c && u[c - 1] == '\n' && !IsComment(u[c]) && !IsSpace(u[c])
    requires IsComment(u[a]) || (output != "" && a > 0 && IsNewLine(u[a - 1]))
    ensures 0 < b <= c && IsNewLine(u[b - 1]) && Comments(u[a..], true, output).rest == u[b..]
    ensures a <= b && (IsComment(u[a]) ==> a < b)
    decreases c - a, !IsComment(u[a])
  {
    hide *;
    if IsComment(u[a]) {
      var next, more := CommentsNext(u, a, c, output);
      b := CommentsStop(u, next, c, more);
    } else {
      var next, more := CommentsSkip(u, a, c, output);
      b := a;
      if IsComment(u[next]) { b := CommentsStop(u, next, c, more); }
    }
  }

  lemma CommentsSkip(u: string, a: nat, c: nat, output: string) returns (next: nat, more: string)
    requires a <= c < |u| && !IsSpace(u[c]) && !IsComment(u[a])
    ensures a <= next <= c
    ensures IsComment(u[next]) ==> Comments(u[a..], true, output) == Comments(u[next..], true, more)
    ensures !IsComment(u[next]) ==> Comments(u[a..], true, output).rest == u[a..]
  {
    hide *;
    var k := SpacesBefore(u, a, c);
    CommentsBlank(u[a..], output);
    next, more := a + k, output + Lines(NewLineCount(u[a..][..k]));
  }

  lemma CommentsNext(u: string, a: nat, c: nat, output: string) returns (next: nat, more: string)
    requires a < c < |u| && u[c - 1] == '\n' && IsComment(u[a])
    ensures a < next <= c && IsNewLine(u[next - 1]) && more != ""
    ensures Comments(u[a..], true, output) == Comments(u[next..], true, more)
  {
    hide *;
    CommentsLine(u[a..], output);
    LineBefore(u, a, c);
    var n := LineEnd(u[a..]);
    NextLineStarts(u, a, n, c);
    next, more := a + n + NewLineLength(u[a..][n..]), output + u[a..][..n] + "\n";
  }

  /** White characters end at the latest at another character. */
  lemma SpacesBefore(u: string, a: nat, c: nat) returns (k: nat)
    requires a <= c < |u| && !IsSpace(u[c])
    ensures k == SpaceCount(u[a..]) < |u[a..]| && a + k <= c
    ensures u[a..][k..] == u[a + k..] && u[a..][k] == u[a + k]
  {
    hide SpaceCount, IsSpace;
    k := SpaceCount(u[a..]);
    assert u[a..][c - a] == u[c];
  }

  lemma CommentsLine(s: string, output: string)
    requires s != "" && IsComment(s[0])
    ensures var n := LineEnd(s);
            n < |s| ==> Comments(s, true, output) == Comments(AfterLine(s, n), true, output + s[..n] + "\n")
  {
    hide LineEnd, AfterLine;
  }

  lemma CommentsBlank(s: string, output: string)
    requires s != "" && !IsComment(s[0]) && SpaceCount(s) < |s|
    ensures var k := SpaceCount(s);
            if IsComment(s[k]) then Comments(s, true, output) == Comments(s[k..], true, output + Lines(NewLineCount(s[..k])))
            else Comments(s, true, output).rest == s
  {
    hide SpaceCount, NewLineCount;
  }

  /** A line ends at the latest where a newline is. */
  lemma LineBefore(u: string, a: nat, c: nat)
    requires a < c <= |u| && u[c - 1] == '\n'
    ensures a + LineEnd(u[a..]) < c && LineEnd(u[a..]) < |u[a..]| && IsNewLine(u[a + LineEnd(u[a..])])
  {
    hide LineEnd;
    assert u[a..][c - 1 - a] == u[c - 1];
  }

  lemma NextLineStarts(u: string, a: nat, n: nat, c: nat)
    requires 0 < c < |u| && a < c && u[c - 1] == '\n'
    requires a + n < c && IsNewLine(u[a + n])
    ensures n < |u[a..]|
    ensures var next := a + n + NewLineLength(u[a..][n..]);
            a < next <= c && IsNewLine(u[next - 1]) && AfterLine(u[a..], n) == u[next..]
  {
    assert u[a..][n..] == u[a + n..];
  }

  /** The search goes on at `a`, under the printed name or already in another section. */
  ghost predicate Under(name: string, front: string, r: string, a: nat, section: string, open: Option<string>) {
    var u := front + r;
    && Front(name, front) && a <= |front| && LineBreak(u, a)
    && match open
       case None => section != name && !SingleLine(section)
       case Some(v) => v == u && a < |u| && IsNewLine(u[a])
  }

  lemma HoldsNewLine(u: string, k: nat, b: nat, last: string)
    requires k < b <= |u| && IsNewLine(u[k])
    ensures !SingleLine(u[..b] + last)
  {
    assert (u[..b] + last)[k] == u[k];
  }

  lemma NameHere(name: string, front: string, r: string, a: nat, b: nat, section: string, open: Option<string>, last: string)
    requires Under(name, front, r, a, section, open) && a <= b < |(front + r)|
    requires open.Some? ==> a < b && (front + r)[..b] + last != name
    ensures var s := SectionName(section, open, (front + r)[b..], last);
            s != name && !SingleLine(s)
  {
    hide SingleLine;
    if open.Some? { HoldsNewLine((front + r), a, b, last); }
  }

  /** The next entry under a printed name with a newline has another section name, and one with a newline. */
  lemma {:induction false} MeetsKey(name: string, front: string, r: string, a: nat, section: string, comment: Option<string>, open: Option<string>)
    requires KeyFirst(r) && Under(name, front, r, a, section, open)
    ensures a <= |(front + r)|
    ensures var p := Next((front + r)[a..], section, comment, open, false);
            p.Parsed? && p.entry.section != name && !SingleLine(p.entry.section)
    decreases |front| - a
  {
    hide *;
    UnderMeans(name, front, r, a, section, open);
    var u := front + r;
    var b := NoHeaderHere(front, r, a);
    var s, t := u[a..], u[b..];
    assert t[0] == u[b];
    if IsComment(u[b]) {
      var next, text, other := CommentMet(name, front, r, a, b, section, comment, open);
      MeetsKey(name, front, r, next, other, Some(text), None);
    } else {
      var n := MarkEnd(t, '=');
      KeyStarts(t);
      if n < |t| && t[n] == '=' && n > 0 {
        KeyMet(name, front, r, a, b, section, comment, open);
      } else {
        NextNoKey(s, section, comment, open, false);
        var m := LinePassed(name, front, r, b);
        assert t[m..] == u[b + m..];
        StillUnder(name, front, r, a, b + m, section, open);
        MeetsKey(name, front, r, b + m, section, comment, open);
      }
    }
  }

  /** Comments are passed over, and the section has another name. */
  lemma CommentMet(name: string, front: string, r: string, a: nat, b: nat, section: string, comment: Option<string>, open: Option<string>)
    returns (next: nat, text: string, other: string)
    requires KeyFirst(r) && Under(name, front, r, a, section, open) && a <= b < |front| && (open.Some? ==> a < b)
    requires Start((front + r)[a..]) == (front + r)[b..] && IsComment((front + r)[b])
    ensures b < next && Under(name, front, r, next, other, None) && next <= |(front + r)|
    ensures Next((front + r)[a..], section, comment, open, false) ==
            Next((front + r)[next..], other, Some(text), None, false)
  {
    hide *;
    UnderMeans(name, front, r, a, section, open);
    AtTheKey(name, front, r);
    var u := (front + r);
    var t := u[b..];
    assert t[0] == u[b];
    text := Comments(t, true, "").text;
    other := SectionName(section, open, t, text);
    NextComment(u[a..], section, comment, open, false);
    CommentNamesOther(name, front, r, b);
    NameHere(name, front, r, a, b, section, open, text);
    next := CommentsStop(u, b, |front|, "");
    UnderElse(name, front, r, next, other);
  }

  lemma KeyMet(name: string, front: string, r: string, a: nat, b: nat, section: string, comment: Option<string>, open: Option<string>)
    requires Under(name, front, r, a, section, open) && a <= b < |(front + r)| && (open.Some? ==> a < b)
    requires Start((front + r)[a..]) == (front + r)[b..] && StartsKey((front + r)[b..])
    requires var t := (front + r)[b..];
             0 < MarkEnd(t, '=') < |t| && t[MarkEnd(t, '=')] == '='
    ensures var p := Next((front + r)[a..], section, comment, open, false);
            p.Parsed? && p.entry.section != name && !SingleLine(p.entry.section)
  {
    hide *;
    UnderMeans(name, front, r, a, section, open);
    var s, t := (front + r)[a..], (front + r)[b..];
    var n := MarkEnd(t, '=');
    var last := Trimmed(t[..n]);
    NextKey(s, section, comment, open, false);
    KeyNamesOther(name, front, r, b, n);
    NameHere(name, front, r, a, b, section, open, last);
    KeyEntryName(t, n, SectionName(section, open, t, last), comment);
  }

  lemma UnderMeans(name: string, front: string, r: string, a: nat, section: string, open: Option<string>)
    requires Under(name, front, r, a, section, open)
    ensures Front(name, front) && HeaderFree(front) && a <= |front| <= |front + r| && LineBreak(front + r, a)
    ensures open.Some? ==> a < |front + r| && IsNewLine((front + r)[a])
  {
    hide HeaderFree, LineBreak;
  }

  lemma StillUnder(name: string, front: string, r: string, a: nat, c: nat, section: string, open: Option<string>)
    requires Under(name, front, r, a, section, open)
    requires c < |front| && IsNewLine((front + r)[c])
    ensures Under(name, front, r, c, section, open)
  {
    hide IsNewLine, SingleLine, Front;
  }

  lemma UnderElse(name: string, front: string, r: string, a: nat, section: string)
    requires Front(name, front) && section != name && !SingleLine(section)
    requires 0 < a <= |front| && IsNewLine((front + r)[a - 1])
    ensures Under(name, front, r, a, section, None)
  {
    hide IsNewLine, SingleLine, Front;
  }

  lemma AtTheKey(name: string, front: string, r: string)
    requires Front(name, front) && KeyFirst(r)
    ensures var u, c := front + r, |front|; c < |u| && u[c - 1] == '\n' && !IsComment(u[c]) && !IsSpace(u[c])
  {
    hide MarkEnd, HeaderFree;
  }

  lemma KeyEntryName(t: string, n: nat, section: string, comment: Option<string>)
    requires n < |t|
    ensures var p := KeyEntry(t, n, section, comment, false); p.Parsed? && p.entry.section == section
  {
    hide Trimmed, BlankCount, LineEnd, AfterLine;
  }

  /** How much of a line without a key is passed over: it ends in front of the next key. */
  lemma LinePassed(name: string, front: string, r: string, b: nat) returns (m: nat)
    requires Front(name, front) && KeyFirst(r) && b <= |front| && !IsSpace((front + r)[b])
    requires var t := (front + r)[b..];
             var n := MarkEnd(t, '=');
             n == 0 || n == |t| || t[n] != '='
    ensures var u := front + r;
            var t := u[b..];
            var n := MarkEnd(t, '=');
            && m == (if n == |t| || t[n] != '=' then n else LineEnd(t))
            && 0 < m && b + m < |front| && IsNewLine(u[b + m])
  {
    hide HeaderFree;
    var u := front + r;
    var t := u[b..];
    AtTheKey(name, front, r);
    assert u[|front|..] == r;
    assert b < |front| ==> t[|front| - 1 - b] == u[|front| - 1];
    m := if MarkEnd(t, '=') == |t| || t[MarkEnd(t, '=')] != '=' then MarkEnd(t, '=') else LineEnd(t);
  }

  /** A section with a grown name and an item is not read back under that name, whatever comments are printed. */
  lemma GrownNotKept(name: string, comment: Option<string>, r: string, before: string, above: Option<string>)
    requires Grown(name) && KeyFirst(r) && CommentOk(comment)
    ensures var p := Next("[" + name + "]\n" + (CommentText(comment, "\n") + r), before, above, None, false);
            p.Parsed? && p.entry.section != name && !SingleLine(p.entry.section)
  {
    hide *;
    var front := name + "]\n" + CommentText(comment, "\n");
    FrontOf(name, comment);
    assert "[" + (front + r) == "[" + name + "]\n" + (CommentText(comment, "\n") + r);
    NameOpens(name, front, r, before);
    HeaderOpens(front + r, before, above);
    MeetsKey(name, front, r, MarkEnd(name, ']'), before, above, Some(front + r));
  }

  /** What is printed between a name and the first key does not look like a header. */
  lemma FrontOf(name: string, comment: Option<string>)
    requires Grown(name) && CommentOk(comment)
    ensures Front(name, name + "]\n" + CommentText(comment, "\n"))
  {
    hide HeaderFree, CleanComment, MarkEnd, Output;
    var x := name + "]\n";
    FreeMore(name, "]");
    assert name + "]" + "\n" == x;
    FreeSpaces(name + "]", "\n");
    if comment.None? {
      assert x + CommentText(comment, "\n") == x;
    } else {
      var c := comment.value;
      CommentFree(x + "\n", c);
      PrintedComment(x, c);
    }
  }

  lemma PrintedComment(x: string, c: string)
    requires c != ""
    ensures x + CommentText(Some(c), "\n") == x + "\n" + c + "\n"
  {
  }

  lemma CommentFree(x: string, c: string)
    requires CleanComment(c, true) && x != ""
    requires HeaderFree(x[..|x| - 1]) && x[|x| - 1] == '\n'
    ensures c != "" && HeaderFree(x + c + "\n")
  {
    hide HeaderFree, Comments;
    CleanStarts(c, true);
    hide CleanComment, LineEnd;
    assert x == x[..|x| - 1] + "\n";
    FreeSpaces(x[..|x| - 1], "\n");
    CommentLoads(c, "", true, "");
    assert c + "\n" + "" == c + "\n" && "" + c == c && x + "" == x && (c + "\n")[0] == c[0];
    FreeComments(x, c + "\n", "");
    FreeSpaces(x + c, "\n");
  }

  /** The header of a grown name is not closed on its line. */
  lemma NameOpens(name: string, front: string, r: string, section: string)
    requires Grown(name) && Front(name, front)
    ensures var u, n := front + r, MarkEnd(name, ']');
            && u != "" && !IsSpace(u[0]) && MarkEnd(u, ']') == n < |u| && u[n] != ']'
            && Under(name, front, r, n, section, Some(u))
  {
    hide HeaderFree, MarkEnd;
    var u, n := front + r, MarkEnd(name, ']');
    assert forall k :: 0 <= k < |name| ==> u[k] == front[k] == front[..|name|][k] == name[k];
    MarkEndIs(u, ']', n);
  }

  lemma HeaderOpens(u: string, before: string, above: Option<string>)
    requires u != "" && !IsSpace(u[0])
    ensures var n := MarkEnd(u, ']');
            n < |u| && u[n] != ']' ==>
            Next("[" + u, before, above, None, false) == Next(u[n..], before, above, Some(u), false)
  {
    var t := "[" + u;
    SpaceCountIs(t, 0);
    SpaceCountIs(u, 0);
    hide SpaceCount, MarkEnd, Next;
    assert t[1..] == u;
    NextHeader(t, before, above, None, false);
  }

  // ----- Whole texts -----

  /** What follows the first section. */
  function Tail(doc: seq<Section>): string {
    if doc == [] then "" else "\n\n" + DocText(doc, false)
  }

  predicate CleanSections(doc: seq<Section>) {
    forall i :: 0 <= i < |doc| ==> CleanSection(doc[i], false)
  }

  lemma TextOf(section: Section, doc: seq<Section>)
    ensures DocText([section] + doc, false) == SectionText(section, false) + Tail(doc)
  {
    hide SectionText;
    assert ([section] + doc)[1..] == doc;
  }

  /** Clean sections in front are read back; then comes what is behind them. */
  lemma {:induction false} CleanPart(doc: seq<Section>, more: seq<Section>, before: string) returns (last: string)
    requires CleanSections(doc) && more != []
    requires forall i :: 0 <= i < |doc| && doc[i].name == "" ==> i == 0 && before == ""
    ensures Entries(DocText(doc + more, false), before, false) ==
            DocEntries(doc) + Entries(DocText(more, false), last, false)
    decreases |doc|
  {
    hide Next, Entries, SectionText, SectionEntries, CleanSection, DocText;
    if doc == [] {
      last := before;
      assert doc + more == more;
    } else {
      var rest := doc[1..] + more;
      assert doc + more == [doc[0]] + rest;
      TextOf(doc[0], rest);
      SectionRoundTrip(doc[0], Tail(rest), before, false);
      SpaceBefore("\n\n", DocText(rest, false), doc[0].name, false);
      assert forall i :: 0 <= i < |doc| - 1 ==> doc[1..][i] == doc[i + 1];
      last := CleanPart(doc[1..], more, doc[0].name);
    }
  }

  /** The first entry of a text that starts with a section with a grown name and an item. */
  lemma GrownPart(section: Section, doc: seq<Section>, before: string) returns (e: Entry, rest: seq<Entry>)
    requires Grown(section.name) && section.items != [] && CleanItems(section.items, false) && CommentOk(section.comment)
    ensures Entries(DocText([section] + doc, false), before, false) == [e] + rest
    ensures e.section != section.name && !SingleLine(e.section)
  {
    hide Next, Entries, HeaderFree, MarkEnd, CleanKey, CleanValue, CommentOk, KeyFirst, SingleLine, ItemText, CommentText, NoComment;
    var first, more := section.items[0], ItemsText(section.items[1..], false) + Tail(doc);
    var r := ItemText(Bare(first), false) + more;
    assert CleanLine(first, false);
    ItemKeyFirst(Bare(first), more, false);
    var s := "[" + section.name + "]\n" + (CommentText(first.comment, "\n") + r);
    GrownNotKept(section.name, first.comment, r, before, section.comment);
    HeaderIsNoComment(section.name, CommentText(first.comment, "\n") + r);
    CommentIsRead(section.comment, "", s, before, false);
    GrownText(section, doc);
    var p := Next(s, before, section.comment, None, false);
    EntriesStep(CommentText(section.comment, "") + s, before, false, p.entry, p.rest);
    e, rest := p.entry, Entries(p.rest, p.entry.section, false);
  }

  lemma GrownText(section: Section, doc: seq<Section>)
    requires section.name != "" && section.items != []
    ensures var first := section.items[0];
            var r := ItemText(Bare(first), false) + (ItemsText(section.items[1..], false) + Tail(doc));
            DocText([section] + doc, false) ==
            CommentText(section.comment, "") + ("[" + section.name + "]\n" + (CommentText(first.comment, "\n") + r))
  {
    TextOf(section, doc);
    hide ItemText, Tail, DocText, CommentText;
  }

  /** Adding entries keeps the names of the sections that are there. */
  lemma {:induction false} NamesStay(doc: seq<Section>, entries: seq<Entry>)
    ensures var r := DocAddAll(doc, entries);
            |doc| <= |r| && forall k :: 0 <= k < |doc| ==> r[k].name == doc[k].name
    decreases |entries|
  {
    hide SectionIndex, ItemsAdd, DocAdd;
    if entries != [] {
      NamesKept(doc, entries[0]);
      NamesStay(DocAdd(doc, entries[0]), entries[1..]);
    }
  }

  lemma NamesKept(doc: seq<Section>, e: Entry)
    ensures var r := DocAdd(doc, e);
            |doc| <= |r| && forall k :: 0 <= k < |doc| ==> r[k].name == doc[k].name
    ensures SectionIndex(doc, e.section) == |doc| ==> |DocAdd(doc, e)| == |doc| + 1 && DocAdd(doc, e)[|doc|].name == e.section
  {
    hide SectionIndex, ItemsAdd;
  }

  lemma FoldedLines(a: string, b: string)
    requires Folded(a) == Folded(b) && SingleLine(a)
    ensures SingleLine(b)
  {
    forall k | 0 <= k < |b|
      ensures !IsNewLine(b[k])
    {
      assert Lower(a[k]) == Folded(a)[k] == Folded(b)[k] == Lower(b[k]);
    }
  }

  lemma NewSection(doc: seq<Section>, name: string)
    requires CleanSections(doc) && !SingleLine(name)
    ensures SectionIndex(doc, name) == |doc|
  {
    hide Folded, SingleLine, CleanItems, CommentOk;
    forall k | 0 <= k < |doc|
      ensures Folded(doc[k].name) != Folded(name)
    {
      if Folded(doc[k].name) == Folded(name) { FoldedLines(doc[k].name, name); }
    }
    SectionIndexIs(doc, name, |doc|);
  }

  lemma UnnamedUncommented(doc: seq<Section>)
    requires CleanSections(doc)
    ensures forall i :: 0 <= i < |doc| && doc[i].name == "" ==> doc[i].comment == None
  {
    hide CleanName, CommentOk, CleanItems;
  }

  /** The sections that are built of a text with a section with a grown name and an item behind clean ones. */
  lemma GrownRenamed(clean: seq<Section>, section: Section, doc: seq<Section>)
    requires CleanSections(clean) && Distinct(clean)
    requires forall i :: 0 <= i < |clean| && clean[i].name == "" ==> i == 0 && clean[i].items != []
    requires Grown(section.name) && section.items != [] && CleanItems(section.items, false) && CommentOk(section.comment)
    ensures var r := DocAddAll([], Entries(DocText(clean + ([section] + doc), false), "", false));
            && |clean| < |r| && (forall k :: 0 <= k < |clean| ==> r[k].name == clean[k].name)
            && r[|clean|].name != section.name && !SingleLine(r[|clean|].name)
  {
    UnnamedUncommented(clean);
    hide *;
    var last := CleanPart(clean, [section] + doc, "");
    var e, rest := GrownPart(section, doc, last);
    assert [] + clean == clean;
    DocBuilt([], clean);
    AddAllAppend([], DocEntries(clean), [e] + rest);
    AddAllStep(clean, [e] + rest);
    assert ([e] + rest)[0] == e && ([e] + rest)[1..] == rest;
    NewSection(clean, e.section);
    NamesKept(clean, e);
    NamesStay(DocAdd(clean, e), rest);
  }
}
