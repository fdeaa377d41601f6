/**
 * The normaliser both generators run before classifying statements:
 * comment removal, joining of the non-blank lines with single spaces, and
 * the cut of the joined text before every `delete`/`update` keyword.
 */
module Normalize {
  import opened Wrappers
  import opened Ascii

  /** `r` has no two adjacent `-` characters. */
  predicate NoDoubleDash(r: string) {
    NoPair(r, '-', '-')
  }

  /** Nowhere in `s` does `a` stand immediately before `b`. */
  predicate NoPair(s: string, a: char, b: char) {
    forall i :: 0 <= i < |s| - 1 ==> !PairAt(s, i, a, b)
  }

  lemma NoPairTail(s: string, a: char, b: char)
    requires |s| > 0 && NoPair(s, a, b)
    ensures NoPair(s[1..], a, b)
  {
    forall i | 0 <= i < |s| - 2 ensures !PairAt(s[1..], i, a, b) {
      assert !PairAt(s, i + 1, a, b);
    }
  }

  lemma NoPairCons(c: char, r: string, a: char, b: char)
    requires NoPair(r, a, b) && !(c == a && r != [] && r[0] == b)
    ensures NoPair([c] + r, a, b)
  {
    var s := [c] + r;
    forall i | 0 <= i < |s| - 1 ensures !PairAt(s, i, a, b) {
      if i > 0 { assert !PairAt(r, i - 1, a, b); }
    }
  }

  /** The characters `a` and `b` stand at positions `i` and `i + 1` of `s`. */
  predicate PairAt(s: string, i: nat, a: char, b: char)
    requires i + 1 < |s|
  {
    s[i] == a && s[i + 1] == b
  }

  /** The suffix of `s` from its first `\n` on, or the empty text when there is none. */
  function FromNewline(s: string): (r: string)
    ensures |r| <= |s| && r == s[|s| - |r|..]
    ensures r == [] || r[0] == '\n'
    ensures '\n' !in s[..|s| - |r|]
  {
    if s == [] || s[0] == '\n' then s else FromNewline(s[1..])
  }

  /**
   * Removal of `--` line comments, the substitution of the pattern `--.*`
   * by the empty text: from every leftmost `--` up to, not including, the
   * next `\n` (the regex dot stops only there).
   */
  function StripLineComments(s: string): (r: string)
    ensures NoDoubleDash(r)
    ensures |r| <= |s|
    ensures |s| > 0 && (|s| == 1 || s[0] != '-' || s[1] != '-') ==> |r| > 0 && r[0] == s[0]
    ensures NoDoubleDash(s) ==> r == s
    decreases |s|
  {
    if |s| < 2 then s
    else if s[0] == '-' && s[1] == '-' then
      assert PairAt(s, 0, '-', '-');
      StripLineComments(FromNewline(s[2..]))
    else
      var rest := StripLineComments(s[1..]);
      NoPairCons(s[0], rest, '-', '-');
      if NoDoubleDash(s) then NoPairTail(s, '-', '-'); [s[0]] + rest
      else [s[0]] + rest
  }

  /** Where no `--` starts the text, its first character is kept and the rest is processed on its own. */
  lemma StripLineCommentsStep(s: string)
    requires |s| > 0 && (|s| == 1 || s[0] != '-' || s[1] != '-')
    ensures StripLineComments(s) == [s[0]] + StripLineComments(s[1..])
  {
  }

  /** Putting the head back in front of the tail of `x`, before `y + z`, gives `x + y + z`. */
  lemma HeadThenTail(x: string, y: string, z: string)
    requires x != []
    ensures [x[0]] + (x[1..] + y + z) == x + y + z
  {
    assert x == [x[0]] + x[1..];
  }

  /** The first two characters and the tail of `x + y + z`, for a non-empty `x` and `y`. */
  lemma HeadOfJoin(x: string, y: string, z: string)
    requires x != [] && y != []
    ensures (x + y + z)[0] == x[0]
    ensures (x + y + z)[1] == if |x| > 1 then x[1] else y[0]
    ensures (x + y + z)[1..] == x[1..] + y + z
  {
  }

  /** A line without `--` is kept whole, up to and including its `\n`. */
  lemma {:induction false} StripLineCommentsKeepsLine(line: string, rest: string)
    requires '\n' !in line && NoDoubleDash(line)
    ensures StripLineComments(line + "\n" + rest) == line + "\n" + StripLineComments(rest)
    decreases |line|
  {
    if line == [] {
      var s := line + "\n" + rest;
      assert s == ['\n'] + rest && s[1..] == rest;
      StripLineCommentsStep(s);
    } else {
      NoPairTail(line, '-', '-');
      assert |line| > 1 ==> !PairAt(line, 0, '-', '-');
      StripLineCommentsKeepsLine(line[1..], rest);
      HeadOfJoin(line, "\n", rest);
      StripLineCommentsStep(line + "\n" + rest);
      HeadThenTail(line, "\n", StripLineComments(rest));
    }
  }

  /** A line is cut at its first `--`; the cut runs to the line's `\n`, which is kept. */
  lemma {:induction false} StripLineCommentsCutsLine(line: string, comment: string, rest: string)
    requires '\n' !in line && NoDoubleDash(line) && (line == [] || line[|line| - 1] != '-')
    requires '\n' !in comment
    ensures StripLineComments(line + "--" + (comment + "\n" + rest)) == line + "\n" + StripLineComments(rest)
    decreases |line|
  {
    if line == [] {
      CommentAtStart(line, comment, rest);
    } else {
      NoPairTail(line, '-', '-');
      StripLineCommentsCutsLine(line[1..], comment, rest);
      CutsLineStep(line, comment, rest);
    }
  }

  /** The inductive step: the first character of the line is kept, then the rest of the line is cut as before. */
  lemma CutsLineStep(line: string, comment: string, rest: string)
    requires line != [] && NoDoubleDash(line) && line[|line| - 1] != '-'
    requires StripLineComments(line[1..] + "--" + (comment + "\n" + rest)) == line[1..] + "\n" + StripLineComments(rest)
    ensures StripLineComments(line + "--" + (comment + "\n" + rest)) == line + "\n" + StripLineComments(rest)
  {
    var after := comment + "\n" + rest;
    assert |line| > 1 ==> !PairAt(line, 0, '-', '-');
    HeadOfJoin(line, "--", after);
    StripLineCommentsStep(line + "--" + after);
    HeadThenTail(line, "\n", StripLineComments(rest));
  }

  /** A line comment at the very start is dropped up to its line break. */
  lemma CommentAtStart(line: string, comment: string, rest: string)
    requires line == [] && '\n' !in comment
    ensures StripLineComments(line + "--" + (comment + "\n" + rest)) == line + "\n" + StripLineComments(rest)
  {
    var after := comment + "\n" + rest;
    var s := line + "--" + after;
    assert s[..2] == "--" && s[2..] == after;
    FromNewlineSkips(comment, rest);
    StripLineCommentsKeepsLine([], rest);
    assert "" + "\n" + rest == "\n" + rest;
  }

  /** Skipping a comment up to its line break leaves that `\n` and what follows. */
  lemma {:induction false} FromNewlineSkips(comment: string, rest: string)
    requires '\n' !in comment
    ensures FromNewline(comment + "\n" + rest) == "\n" + rest
    decreases |comment|
  {
    if comment == [] {
      assert comment + "\n" + rest == "\n" + rest;
    } else {
      FromNewlineSkips(comment[1..], rest);
      HeadOfJoin(comment, "\n", rest);
    }
  }

  /** The position of the first `*` `/` pair at or after `i`, if any. */
  function FindCommentClose(s: string, i: nat): (r: Option<nat>)
    ensures r.Some? ==> i <= r.value && HasAt(s, r.value, "*/")
    ensures r.Some? ==> forall j :: i <= j < r.value ==> !HasAt(s, j, "*/")
    ensures r.None? ==> forall j :: i <= j ==> !HasAt(s, j, "*/")
    decreases |s| - i
  {
    if i + 2 > |s| then None
    else if s[i] == '*' && s[i + 1] == '/' then
      HasCloseAt(s, i);
      Some(i)
    else
      HasCloseAt(s, i);
      FindCommentClose(s, i + 1)
  }

  /** `s` has no `/` `*` pair. */
  predicate NoCommentOpen(s: string) {
    NoPair(s, '/', '*')
  }

  /**
   * Removal of block comments, the substitution of the lazy pattern for
   * slash-star ... star-slash, with the dot matching every character: from
   * every leftmost opening pair to the first closing pair after it. An
   * opening pair with no closing pair after it, and everything after it,
   * is kept.
   */
  function StripBlockComments(s: string): (r: string)
    ensures |r| <= |s|
    ensures NoCommentOpen(s) ==> r == s
    decreases |s|
  {
    if |s| < 2 then s
    else if s[0] == '/' && s[1] == '*' then
      match FindCommentClose(s, 2)
      case None => s
      case Some(j) => assert PairAt(s, 0, '/', '*'); StripBlockComments(s[j + 2..])
    else
      if NoCommentOpen(s) then NoPairTail(s, '/', '*'); [s[0]] + StripBlockComments(s[1..])
      else [s[0]] + StripBlockComments(s[1..])
  }

  /** The closing pair stands at `k` exactly when `s[k]` is `*` and `s[k + 1]` is `/`. */
  lemma HasCloseAt(s: string, k: nat)
    requires k + 2 <= |s|
    ensures HasAt(s, k, "*/") <==> s[k] == '*' && s[k + 1] == '/'
  {
    if s[k] == '*' && s[k + 1] == '/' {
      assert s[k..k + 2] == "*/";
    }
  }

  /** `FindCommentClose` finds `j` when the closing pair stands there and at no earlier position from `i` on. */
  lemma FindCommentCloseIs(s: string, i: nat, j: nat)
    requires i <= j && HasAt(s, j, "*/")
    requires forall k :: i <= k < j ==> !HasAt(s, k, "*/")
    ensures FindCommentClose(s, i) == Some(j)
  {
  }

  /** The characters of an opening pair, `body`, a closing pair and `rest`, in that order. */
  lemma BlockLayout(body: string, rest: string)
    ensures var s := "/*" + body + "*/" + rest;
      var j := |body| + 2;
      |s| == j + 2 + |rest| && s[0] == '/' && s[1] == '*'
      && (forall k :: 2 <= k < j ==> s[k] == body[k - 2])
      && s[j] == '*' && s[j + 1] == '/' && s[j + 2..] == rest
  {
    var s := "/*" + body + "*/" + rest;
    assert s == "/*" + (body + ("*/" + rest));
  }

  /** A closed block comment at the head of the text is dropped with its delimiters. */
  lemma StripBlockCommentAtHead(body: string, rest: string)
    requires forall j :: 0 <= j < |body| - 1 ==> !HasAt(body, j, "*/")
    ensures StripBlockComments("/*" + body + "*/" + rest) == StripBlockComments(rest)
  {
    var s := "/*" + body + "*/" + rest;
    var j := |body| + 2;
    BlockLayout(body, rest);
    HasCloseAt(s, j);
    forall k | 2 <= k < j ensures !HasAt(s, k, "*/") {
      HasCloseAt(s, k);
      if k < j - 1 {
        HasCloseAt(body, k - 2);
      }
    }
    FindCommentCloseIs(s, 2, j);
  }

  /** Text without an opening pair, not ending in `/`, is kept, and the removal goes on after it. */
  lemma {:induction false} StripBlockCommentsKeepsPrefix(x: string, rest: string)
    requires NoCommentOpen(x) && (x == [] || x[|x| - 1] != '/')
    ensures StripBlockComments(x + rest) == x + StripBlockComments(rest)
    decreases |x|
  {
    if x != [] {
      if |x| > 1 {
        assert !PairAt(x, 0, '/', '*');
      }
      NoPairTail(x, '/', '*');
      StripBlockCommentsKeepsPrefix(x[1..], rest);
      KeepsPrefixStep(x, rest);
    } else {
      assert x + rest == rest;
    }
  }

  /** One step of `StripBlockCommentsKeepsPrefix`: the first character of `x` is kept. */
  lemma KeepsPrefixStep(x: string, rest: string)
    requires x != [] && !(x[0] == '/' && |x| > 1 && x[1] == '*') && (|x| == 1 ==> x[0] != '/')
    requires StripBlockComments(x[1..] + rest) == x[1..] + StripBlockComments(rest)
    ensures StripBlockComments(x + rest) == x + StripBlockComments(rest)
  {
    HeadAndTail(x, rest);
    StripBlockCommentsCons(x[0], x[1..] + rest);
    HeadAndTail(x, StripBlockComments(rest));
  }

  /** `x + r` is the first character of `x`, then the rest of `x`, then `r`. */
  lemma HeadAndTail(x: string, r: string)
    requires x != []
    ensures x + r == [x[0]] + (x[1..] + r)
  {
    assert x == [x[0]] + x[1..];
  }

  /** A character that does not open a pair with the next one is kept. */
  lemma StripBlockCommentsCons(c: char, t: string)
    requires !(c == '/' && t != [] && t[0] == '*')
    ensures StripBlockComments([c] + t) == [c] + StripBlockComments(t)
  {
    var s := [c] + t;
    assert s[1..] == t;
  }

  /** An opening pair with no closing pair after it is kept, with everything after it. */
  lemma StripBlockCommentsUnclosed(body: string)
    requires forall j :: 0 <= j < |body| - 1 ==> !HasAt(body, j, "*/")
    ensures StripBlockComments("/*" + body) == "/*" + body
  {
    var s := "/*" + body;
    assert s[0] == '/' && s[1] == '*';
    forall k | 2 <= k ensures !HasAt(s, k, "*/") {
      if k + 2 <= |s| {
        HasCloseAt(s, k);
        HasCloseAt(body, k - 2);
        assert s[k] == body[k - 2] && s[k + 1] == body[k - 1];
      }
    }
  }

  /** A closed block comment after comment-free text is dropped, and the text before it is kept. */
  lemma StripBlockCommentInside(x: string, body: string, rest: string)
    requires NoCommentOpen(x) && (x == [] || x[|x| - 1] != '/')
    requires forall j :: 0 <= j < |body| - 1 ==> !HasAt(body, j, "*/")
    ensures StripBlockComments(x + ("/*" + body + "*/" + rest)) == x + StripBlockComments(rest)
  {
    StripBlockCommentsKeepsPrefix(x, "/*" + body + "*/" + rest);
    StripBlockCommentAtHead(body, rest);
  }

  /** The comment inside `a/*c*/b` is removed. */
  lemma InnerCommentRemoved()
    ensures StripBlockComments("a/*c*/b") == "ab"
  {
    StripBlockCommentInside("a", "c", "b");
    assert "a" + ("/*" + "c" + "*/" + "b") == "a/*c*/b";
    assert StripBlockComments("b") == "b";
  }

  /** Python's `str.splitlines()`, cutting at every line-break character. */
  function SplitLines(s: string): (r: seq<string>)
    decreases |s|
  {
    if s == [] then []
    else
      var i := FirstLineBreak(s);
      if i == |s| then [s] else [s[..i]] + SplitLines(s[i + 1..])
  }

  /** No line holds a line-break character. */
  lemma {:induction false} SplitLinesNoLineBreak(s: string)
    ensures forall k :: 0 <= k < |SplitLines(s)| ==> NoLineBreak(SplitLines(s)[k])
    decreases |s|
  {
    if s != [] {
      var i := FirstLineBreak(s);
      FirstLineBreakBefore(s);
      if i < |s| {
        SplitLinesNoLineBreak(s[i + 1..]);
        NoBreakIsLine(s[..i]);
      } else {
        NoBreakIsLine(s);
      }
    }
  }

  /** The position of the first line-break character of `s`, or `|s|`. */
  function FirstLineBreak(s: string): (i: nat)
    ensures i <= |s| && (i < |s| ==> IsLineBreak(s[i]))
  {
    if s == [] || IsLineBreak(s[0]) then 0 else FirstLineBreak(s[1..]) + 1
  }

  /** No line-break character stands before the first one. */
  lemma {:induction false} FirstLineBreakBefore(s: string)
    ensures forall j :: 0 <= j < FirstLineBreak(s) ==> !IsLineBreak(s[j])
  {
    if s != [] && !IsLineBreak(s[0]) {
      FirstLineBreakBefore(s[1..]);
      forall j | 0 < j < FirstLineBreak(s) ensures !IsLineBreak(s[j]) {
        assert s[j] == s[1..][j - 1];
      }
    }
  }

  /** `s` holds no line-break character. */
  predicate NoLineBreak(s: string) {
    forall c :: c in s ==> !IsLineBreak(c)
  }

  /** A non-blank text with no blank at either end. */
  predicate Trimmed(x: string) {
    x != [] && !IsSpace(x[0]) && !IsSpace(x[|x| - 1])
  }

  /** The stripped lines that are not blank, in order: `line.strip() for line in ... if line.strip()`. */
  function NonBlank(lines: seq<string>): (r: seq<string>)
    ensures |r| <= |lines|
  {
    if lines == [] then []
    else
      var line := Strip(lines[0]);
      var rest := NonBlank(lines[1..]);
      if line == [] then rest else [line] + rest
  }

  /** Stripping a line free of breaks leaves it free of breaks. */
  lemma StripNoLineBreak(x: string)
    requires NoLineBreak(x)
    ensures NoLineBreak(Strip(x))
  {
    var r := Strip(x);
    var i: nat :| BlanksAround(x, i, r);
    forall j | 0 <= j < |r| ensures !IsLineBreak(r[j]) {
      assert r[j] == x[i + j] && x[i + j] in x;
    }
    NoBreakIsLine(r);
  }

  /** Every kept line is stripped and not blank, and holds no line break when no input line does. */
  lemma {:induction false} NonBlankLines(lines: seq<string>)
    requires forall k :: 0 <= k < |lines| ==> NoLineBreak(lines[k])
    ensures forall y :: y in NonBlank(lines) ==> Trimmed(y) && NoLineBreak(y)
  {
    if lines != [] {
      assert NoLineBreak(lines[0]);
      StripNoLineBreak(lines[0]);
      NonBlankLines(lines[1..]);
    }
  }

  /** The non-blank lines of `s`, each stripped, joined by single spaces. */
  function JoinLines(s: string): (r: string)
    ensures NoLineBreak(r) && Unpadded(r)
  {
    var lines := NonBlank(SplitLines(s));
    SplitLinesNoLineBreak(s);
    NonBlankLines(SplitLines(s));
    JoinNoLineBreak(lines);
    JoinEnds(lines);
    Join(" ", lines)
  }

  /** Joining texts free of line breaks with a space gives a text free of line breaks. */
  lemma {:induction false} JoinNoLineBreak(parts: seq<string>)
    requires forall k :: 0 <= k < |parts| ==> NoLineBreak(parts[k])
    ensures NoLineBreak(Join(" ", parts))
  {
    if |parts| > 1 {
      JoinNoLineBreak(parts[1..]);
    }
  }

  /** `r` opens with the first character of `first` and closes with the last character of `last`. */
  predicate SameEnds(r: string, first: string, last: string) {
    r != [] && first != [] && last != [] && r[0] == first[0] && r[|r| - 1] == last[|last| - 1]
  }

  /** Joining non-blank stripped lines gives a text that is itself stripped. */
  lemma {:induction false} JoinEnds(parts: seq<string>)
    requires forall y :: y in parts ==> Trimmed(y)
    ensures parts != [] ==> SameEnds(Join(" ", parts), parts[0], parts[|parts| - 1])
    ensures Unpadded(Join(" ", parts))
  {
    if parts != [] {
      assert parts[0] in parts && parts[|parts| - 1] in parts;
      if |parts| > 1 {
        var rest := parts[1..];
        assert forall y :: y in rest ==> y in parts;
        JoinEnds(rest);
        JoinEndsStep(parts);
      }
    }
  }

  /** One step of `JoinEnds`: a stripped line, a space and a stripped join. */
  lemma JoinEndsStep(parts: seq<string>)
    requires |parts| > 1 && Trimmed(parts[0]) && Trimmed(parts[|parts| - 1])
    requires SameEnds(Join(" ", parts[1..]), parts[1], parts[|parts| - 1])
    ensures SameEnds(Join(" ", parts), parts[0], parts[|parts| - 1])
    ensures Unpadded(Join(" ", parts))
  {
    var j := Join(" ", parts[1..]);
    assert Join(" ", parts) == parts[0] + " " + j;
  }

  /** A text with no line-break character is its own first line. */
  lemma NoBreakIsLine(a: string)
    requires forall j :: 0 <= j < |a| ==> !IsLineBreak(a[j])
    ensures NoLineBreak(a)
  {
    forall c | c in a ensures !IsLineBreak(c) {
      var j :| 0 <= j < |a| && a[j] == c;
    }
  }

  /** The first break of `a`, a break and `c` stands right after `a`. */
  lemma FirstLineBreakAfter(a: string, b: char, c: string)
    requires NoLineBreak(a) && IsLineBreak(b)
    ensures FirstLineBreak(a + [b] + c) == |a|
  {
    var s := a + [b] + c;
    assert s[|a|] == b;
    FirstLineBreakBefore(s);
    forall j | 0 <= j < |a| ensures !IsLineBreak(s[j]) {
      assert s[j] == a[j] && a[j] in a;
    }
  }

  /** A line free of breaks followed by a break is the first line; the lines of what follows come after it. */
  lemma SplitLinesCons(a: string, b: char, c: string)
    requires NoLineBreak(a) && IsLineBreak(b)
    ensures SplitLines(a + [b] + c) == [a] + SplitLines(c)
  {
    var s := a + [b] + c;
    FirstLineBreakAfter(a, b, c);
    assert s[..|a|] == a && s[|a| + 1..] == c;
  }

  /** A non-empty text free of breaks is a single line. */
  lemma SplitLinesSingle(a: string)
    requires NoLineBreak(a) && a != []
    ensures SplitLines(a) == [a]
  {
    forall j | 0 <= j < |a| ensures !IsLineBreak(a[j]) {
      assert a[j] in a;
    }
  }

  /** Dropping blank lines and stripping the rest works line by line: `NonBlank` of a concatenation is the concatenation. */
  lemma {:induction false} NonBlankAppend(x: seq<string>, y: seq<string>)
    ensures NonBlank(x + y) == NonBlank(x) + NonBlank(y)
  {
    if x == [] {
      assert x + y == y;
    } else {
      assert (x + y)[0] == x[0] && (x + y)[1..] == x[1..] + y;
      NonBlankAppend(x[1..], y);
    }
  }

  /** One line is dropped when it is blank and otherwise kept stripped. */
  lemma NonBlankOne(line: string)
    ensures NonBlank([line]) == if Strip(line) == [] then [] else [Strip(line)]
  {
    assert [line][1..] == [];
  }

  /** The non-blank lines on both sides of a line break are those of each side, in order. */
  lemma {:induction false} NonBlankAround(a: string, c: char, b: string)
    requires IsLineBreak(c)
    ensures NonBlank(SplitLines(a + [c] + b)) == NonBlank(SplitLines(a)) + NonBlank(SplitLines(b))
    decreases |a|
  {
    var i := FirstLineBreak(a);
    if i == |a| {
      FirstLineBreakBefore(a);
      NoBreakIsLine(a);
      NonBlankAroundLine(a, c, b);
    } else {
      NonBlankAround(a[i + 1..], c, b);
      NonBlankAroundStep(a, i, c, b);
    }
  }

  /** The base case: `a` is free of breaks, so it is the first line. */
  lemma NonBlankAroundLine(a: string, c: char, b: string)
    requires IsLineBreak(c) && NoLineBreak(a)
    ensures NonBlank(SplitLines(a + [c] + b)) == NonBlank(SplitLines(a)) + NonBlank(SplitLines(b))
  {
    SplitLinesCons(a, c, b);
    NonBlankAppend([a], SplitLines(b));
    NonBlankOne(a);
    if a != [] {
      SplitLinesSingle(a);
    }
  }

  /** The step: the first line of `a` ends at its first break `i`; the rest of `a` is handled before. */
  lemma NonBlankAroundStep(a: string, i: nat, c: char, b: string)
    requires IsLineBreak(c) && i < |a| && i == FirstLineBreak(a)
    requires NonBlank(SplitLines(a[i + 1..] + [c] + b)) == NonBlank(SplitLines(a[i + 1..])) + NonBlank(SplitLines(b))
    ensures NonBlank(SplitLines(a + [c] + b)) == NonBlank(SplitLines(a)) + NonBlank(SplitLines(b))
  {
    var a1, a2 := a[..i], a[i + 1..];
    FirstLineBreakBefore(a);
    NoBreakIsLine(a1);
    AroundSlices(a, c, b, i);
    SplitLinesCons(a1, a[i], a2 + [c] + b);
    SplitLinesCons(a1, a[i], a2);
    var first, rest, tail := [a1], SplitLines(a2 + [c] + b), SplitLines(a2);
    NonBlankAppend(first, rest);
    NonBlankAppend(first, tail);
    Regroup(NonBlank(first), NonBlank(tail), NonBlank(SplitLines(b)));
  }

  /** Concatenation of lists regroups freely. */
  lemma Regroup(x: seq<string>, y: seq<string>, z: seq<string>)
    ensures x + (y + z) == x + y + z
  {
  }

  /** `a`, and `a + [c] + b`, around the character at `i` inside `a`. */
  lemma AroundSlices(a: string, c: char, b: string, i: nat)
    requires i < |a|
    ensures a == a[..i] + [a[i]] + a[i + 1..]
    ensures a + [c] + b == a[..i] + [a[i]] + (a[i + 1..] + [c] + b)
  {
  }

  /** A single stripped line is joined to itself. */
  lemma JoinLinesOne(x: string)
    requires Trimmed(x) && NoLineBreak(x)
    ensures JoinLines(x) == x
  {
    SplitLinesSingle(x);
    NonBlankOne(x);
  }

  /** Two texts that each hold a non-blank line are joined with one space in place of the break between them. */
  lemma JoinLinesAppend(a: string, b: string)
    requires JoinLines(a) != [] && JoinLines(b) != []
    ensures JoinLines(a + "\n" + b) == JoinLines(a) + " " + JoinLines(b)
  {
    assert a + "\n" + b == a + ['\n'] + b;
    NonBlankAround(a, '\n', b);
    JoinAppend(" ", NonBlank(SplitLines(a)), NonBlank(SplitLines(b)));
  }

  /** The keyword test of the split lookahead `(?=delete|update)`, ignoring case. */
  predicate StartsWithKeyword(s: string) {
    StartsWithCI(s, "delete") || StartsWithCI(s, "update")
  }

  /**
   * A position where the pattern `\b(?=delete|update)\b` matches: a keyword
   * starts here and the previous character, if any, is not a word character.
   * Nothing is required after the keyword, so `updated_at` qualifies.
   */
  predicate IsSplitPoint(t: string, i: nat) {
    i < |t| && (i == 0 || !IsWordChar(t[i - 1])) && StartsWithKeyword(t[i..])
  }

  /** `f` is empty or its last character is not a word character. */
  predicate EndsOutsideWord(f: string) {
    f == [] || !IsWordChar(f[|f| - 1])
  }

  /** `re.split` at every split point from `i` on; the current fragment began at `start`. */
  function SplitFrom(t: string, start: nat, i: nat): (r: seq<string>)
    requires start <= i <= |t|
    requires start < i || i == 0
    ensures |r| > 0
    decreases |t| - i
  {
    if i == |t| then [t[start..]]
    else if IsSplitPoint(t, i) then [t[start..i]] + SplitFrom(t, i, i + 1)
    else SplitFrom(t, start, i + 1)
  }

  /**
   * `r` cuts `text` into statement pieces: they rejoin to `text`, every
   * piece after the first starts with a keyword, and every piece but the
   * last ends outside a word.
   */
  predicate Pieces(text: string, r: seq<string>) {
    Join("", r) == text
    && (forall k :: 0 < k < |r| ==> StartsWithKeyword(r[k]))
    && (forall k :: 0 <= k < |r| - 1 ==> EndsOutsideWord(r[k]))
  }

  /** The split from `start` cuts the rest of the text into statement pieces. */
  lemma {:induction false} SplitFromPieces(t: string, start: nat, i: nat)
    requires start <= i <= |t|
    requires start < i || i == 0
    ensures SplitsIntoPieces(t, start, i)
    decreases |t| - i
  {
    if i == |t| {
      PiecesAtEnd(t, start);
    } else if IsSplitPoint(t, i) {
      SplitFromPieces(t, i, i + 1);
      PiecesAtCut(t, start, i);
    } else {
      SplitFromPieces(t, start, i + 1);
      PiecesAtSkip(t, start, i);
    }
  }

  /** The split from `start`, resumed at `i`, cuts the rest of the text into statement pieces. */
  predicate SplitsIntoPieces(t: string, start: nat, i: nat)
    requires start <= i <= |t| && (start < i || i == 0)
  {
    Pieces(t[start..], SplitFrom(t, start, i))
  }

  lemma PiecesAtEnd(t: string, start: nat)
    requires start <= |t| && (start < |t| || |t| == 0)
    ensures SplitsIntoPieces(t, start, |t|)
  {
    EndAt(t, start);
    PiecesSingle(t[start..]);
  }

  lemma PiecesAtCut(t: string, start: nat, i: nat)
    requires start <= i < |t| && (start < i || i == 0) && IsSplitPoint(t, i)
    requires SplitsIntoPieces(t, i, i + 1)
    ensures SplitsIntoPieces(t, start, i)
  {
    SplitFromFirstKeyword(t, i, i + 1);
    CutAt(t, start, i);
    PiecesCons(t, start, i, SplitFrom(t, i, i + 1));
  }

  lemma PiecesAtSkip(t: string, start: nat, i: nat)
    requires start <= i < |t| && (start < i || i == 0) && !IsSplitPoint(t, i)
    requires SplitsIntoPieces(t, start, i + 1)
    ensures SplitsIntoPieces(t, start, i)
  {
    SkipAt(t, start, i);
  }

  /** A piece that begins at a split point starts with its keyword. */
  lemma {:induction false} SplitFromFirstKeyword(t: string, start: nat, i: nat)
    requires start < i <= |t| && IsSplitPoint(t, start)
    ensures StartsWithKeyword(SplitFrom(t, start, i)[0])
    decreases |t| - i
  {
    if i == |t| {
      EndAt(t, start);
    } else if IsSplitPoint(t, i) {
      CutAt(t, start, i);
      KeywordIsWord(t, start, i);
    } else {
      SplitFromFirstKeyword(t, start, i + 1);
      SkipAt(t, start, i);
    }
  }

  lemma PiecesSingle(x: string)
    ensures Pieces(x, [x])
  {
  }

  /** A piece ending at a split point, before pieces that start there. */
  lemma PiecesCons(t: string, start: nat, i: nat, rest: seq<string>)
    requires start <= i < |t| && IsSplitPoint(t, i)
    requires rest != [] && Pieces(t[i..], rest) && StartsWithKeyword(rest[0])
    ensures Pieces(t[start..], [t[start..i]] + rest)
  {
    var x := t[start..i];
    var r := [x] + rest;
    assert t[start..] == x + t[i..];
    assert r[1..] == rest;
    assert EndsOutsideWord(x) by {
      if x != [] {
        assert x[|x| - 1] == t[i - 1];
      }
    }
    assert Join("", r) == x + Join("", rest);
  }

  /** A later split point cannot fall inside the keyword of an earlier one. */
  lemma KeywordIsWord(t: string, start: nat, i: nat)
    requires start <= i && IsSplitPoint(t, i)
    ensures start < i && IsSplitPoint(t, start) ==> start + 6 <= i && StartsWithKeyword(t[start..i])
  {
    if start < i && IsSplitPoint(t, start) {
      var f := t[start..i];
      assert forall j :: 0 <= j < |f| ==> f[j] == t[start..][j];
    }
  }

  /**
   * The statement fragments of the joined text. The text before the first
   * keyword is the first fragment (empty when the text starts with one);
   * every later fragment starts with `delete` or `update` at a word boundary.
   */
  function Fragments(t: string): (r: seq<string>)
    ensures |r| > 0 && Join("", r) == t
    ensures forall k :: 0 < k < |r| ==> StartsWithKeyword(r[k])
    ensures forall k :: 0 <= k < |r| - 1 ==> EndsOutsideWord(r[k])
  {
    SplitFromPieces(t, 0, 0);
    SplitFrom(t, 0, 0)
  }

  /** No split point inside `f` after its first character. */
  predicate NoInnerSplit(f: string) {
    forall j :: 0 < j < |f| ==> !IsSplitPoint(f, j)
  }

  /** A split point inside a piece, after its first character, is one in the whole text. */
  lemma PieceSplitLift(t: string, a: nat, b: nat, j: nat)
    requires a <= b <= |t| && 0 < j < b - a
    ensures IsSplitPoint(t[a..b], j) ==> IsSplitPoint(t, a + j)
  {
    var f := t[a..b];
    if IsSplitPoint(f, j) {
      assert f[j - 1] == t[a + j - 1];
      assert forall m :: 0 <= m < |f[j..]| ==> f[j..][m] == t[a + j..][m];
    }
  }

  /** A piece of the text with no split point inside it in the text has none of its own. */
  lemma PieceNoInnerSplit(t: string, a: nat, b: nat)
    requires a <= b <= |t|
    requires forall j :: a < j < b ==> !IsSplitPoint(t, j)
    ensures NoInnerSplit(t[a..b])
  {
    forall j | 0 < j < b - a ensures !IsSplitPoint(t[a..b], j) {
      PieceSplitLift(t, a, b, j);
    }
  }

  /** The piece cut at a split point, followed by pieces with no split point inside. */
  lemma NoInnerSplitAtCut(t: string, start: nat, i: nat, rest: seq<string>)
    requires start <= i < |t| && (start < i || i == 0) && IsSplitPoint(t, i)
    requires forall j :: start < j < i ==> !IsSplitPoint(t, j)
    requires rest == SplitFrom(t, i, i + 1) && forall y :: y in rest ==> NoInnerSplit(y)
    ensures forall y :: y in SplitFrom(t, start, i) ==> NoInnerSplit(y)
  {
    PieceNoInnerSplit(t, start, i);
    assert SplitFrom(t, start, i) == [t[start..i]] + rest;
  }

  /** `re.split` leaves no split point inside a piece: every split point is a cut. */
  lemma {:induction false} SplitFromNoInnerSplit(t: string, start: nat, i: nat)
    requires start <= i <= |t| && (start < i || i == 0)
    requires forall j :: start < j < i ==> !IsSplitPoint(t, j)
    ensures forall y :: y in SplitFrom(t, start, i) ==> NoInnerSplit(y)
    decreases |t| - i
  {
    if i == |t| {
      PieceNoInnerSplit(t, start, i);
      assert t[start..i] == t[start..];
    } else if IsSplitPoint(t, i) {
      SplitFromNoInnerSplit(t, i, i + 1);
      NoInnerSplitAtCut(t, start, i, SplitFrom(t, i, i + 1));
    } else {
      SplitFromNoInnerSplit(t, start, i + 1);
      assert SplitFrom(t, start, i) == SplitFrom(t, start, i + 1);
    }
  }

  /**
   * The text is cut at every split point: no fragment holds one after its
   * first character, and a text that starts with a keyword leaves an empty
   * first fragment.
   */
  lemma FragmentsCutAtSplitPoints(t: string)
    ensures forall y :: y in Fragments(t) ==> NoInnerSplit(y)
    ensures IsSplitPoint(t, 0) ==> Fragments(t)[0] == []
  {
    SplitFromNoInnerSplit(t, 0, 0);
  }

  /** A keyword that starts inside a text ending outside a word ends inside it. */
  lemma KeywordInsidePrefix(a: string, b: string, i: nat)
    requires i < |a| && EndsOutsideWord(a)
    ensures StartsWithKeyword((a + b)[i..]) ==> i + 6 <= |a| && (a + b)[i..][..6] == a[i..][..6]
  {
    var t := a + b;
    if StartsWithKeyword(t[i..]) && i + 6 > |a| {
      var m := |a| - 1 - i;
      assert t[i..][m] == a[|a| - 1];
    }
  }

  /** Below the end of `a`, a split point of `a + b` is one of `a`. */
  lemma SplitPointInPrefix(a: string, b: string, i: nat)
    requires i < |a| && EndsOutsideWord(a)
    ensures IsSplitPoint(a + b, i) <==> IsSplitPoint(a, i)
  {
    var t := a + b;
    KeywordInsidePrefix(a, b, i);
    assert i > 0 ==> t[i - 1] == a[i - 1];
    if StartsWithKeyword(a[i..]) {
      assert forall m :: 0 <= m < |a[i..]| ==> a[i..][m] == t[i..][m];
    }
    if StartsWithKeyword(t[i..]) {
      assert forall m :: 0 <= m < 6 ==> t[i..][m] == a[i..][m];
    }
  }

  /** After the end of `a`, a split point of `a + b` is one of `b`. */
  lemma SplitPointShift(a: string, b: string, i: nat)
    requires 0 < i < |b|
    ensures IsSplitPoint(a + b, |a| + i) <==> IsSplitPoint(b, i)
  {
    var t := a + b;
    assert t[|a| + i - 1] == b[i - 1];
    assert t[|a| + i..] == b[i..];
  }

  /** After the end of `a`, the split of `a + b` is the split of `b`, shifted. */
  lemma {:induction false} SplitFromShift(a: string, b: string, s0: nat, i0: nat, s: nat, i: nat)
    requires s < i <= |b| && s0 == |a| + s && i0 == |a| + i
    ensures SplitFrom(a + b, s0, i0) == SplitFrom(b, s, i)
    decreases |b| - i
  {
    if i == |b| {
      ShiftEnd(a, b, s0, s);
    } else if IsSplitPoint(b, i) {
      SplitFromShift(a, b, i0, i0 + 1, i, i + 1);
      ShiftCut(a, b, s0, i0, s, i);
    } else {
      SplitFromShift(a, b, s0, i0 + 1, s, i + 1);
      ShiftSkip(a, b, s0, i0, s, i);
    }
  }

  /** The last piece of `a + b` from `s0` is the last piece of `b` from `s`. */
  lemma ShiftEnd(a: string, b: string, s0: nat, s: nat)
    requires s < |b| && s0 == |a| + s
    ensures SplitFrom(a + b, s0, |a| + |b|) == SplitFrom(b, s, |b|)
  {
    var t := a + b;
    EndAt(t, s0);
    EndAt(b, s);
    assert t[s0..] == b[s..];
  }

  /** The shifted split cuts at `|a| + i` exactly when the split of `b` cuts at `i`, with the same piece. */
  lemma ShiftCut(a: string, b: string, s0: nat, i0: nat, s: nat, i: nat)
    requires s < i < |b| && s0 == |a| + s && i0 == |a| + i && IsSplitPoint(b, i)
    requires SplitFrom(a + b, i0, i0 + 1) == SplitFrom(b, i, i + 1)
    ensures SplitFrom(a + b, s0, i0) == SplitFrom(b, s, i)
  {
    var t := a + b;
    SplitPointShift(a, b, i);
    CutAt(t, s0, i0);
    CutAt(b, s, i);
    ShiftSlice(a, b, s, i);
  }

  /** A slice of `b` reads the same inside `a + b`, shifted by `|a|`. */
  lemma ShiftSlice(a: string, b: string, s: nat, i: nat)
    requires s <= i <= |b|
    ensures (a + b)[|a| + s..|a| + i] == b[s..i]
  {
    assert (a + b)[|a|..] == b;
  }

  /** Where `b` has no split point at `i`, neither has `a + b` at `|a| + i`. */
  lemma ShiftSkip(a: string, b: string, s0: nat, i0: nat, s: nat, i: nat)
    requires s < i < |b| && s0 == |a| + s && i0 == |a| + i && !IsSplitPoint(b, i)
    requires SplitFrom(a + b, s0, i0 + 1) == SplitFrom(b, s, i + 1)
    ensures SplitFrom(a + b, s0, i0) == SplitFrom(b, s, i)
  {
    SplitPointShift(a, b, i);
    SkipAt(a + b, s0, i0);
    SkipAt(b, s, i);
  }

  /** The split of `a + b`, where `b` starts a statement right after `a`, goes on with the split of `b`. */
  lemma {:induction false} SplitFromPrefix(a: string, b: string, start: nat, i: nat)
    requires start <= i <= |a| && (start < i || i == 0)
    requires a != [] && EndsOutsideWord(a) && StartsWithKeyword(b)
    ensures SplitFrom(a + b, start, i) == SplitFrom(a, start, i) + SplitFrom(b, 0, 1)
    decreases |a| - i
  {
    if i == |a| {
      PrefixEnd(a, b, start);
    } else {
      var cut := IsSplitPoint(a, i);
      var next := if cut then i else start;
      SplitFromPrefix(a, b, next, i + 1);
      PrefixStep(a, b, start, i, cut);
    }
  }

  /** One position of `a` before its end: both splits cut there or both skip it. */
  lemma PrefixStep(a: string, b: string, start: nat, i: nat, cut: bool)
    requires start <= i < |a| && (start < i || i == 0) && b != [] && EndsOutsideWord(a)
    requires cut == IsSplitPoint(a, i)
    requires var next := if cut then i else start;
      SplitFrom(a + b, next, i + 1) == SplitFrom(a, next, i + 1) + SplitFrom(b, 0, 1)
    ensures SplitFrom(a + b, start, i) == SplitFrom(a, start, i) + SplitFrom(b, 0, 1)
  {
    if cut {
      PrefixCut(a, b, start, i);
    } else {
      PrefixSkip(a, b, start, i);
    }
  }

  /** At the end of `a` the split of `a + b` cuts, and the split of `b` follows. */
  lemma PrefixEnd(a: string, b: string, start: nat)
    requires start < |a| || start == 0
    requires a != [] && EndsOutsideWord(a) && StartsWithKeyword(b)
    ensures SplitFrom(a + b, start, |a|) == SplitFrom(a, start, |a|) + SplitFrom(b, 0, 1)
  {
    var t := a + b;
    SplitPointAtJoin(a, b);
    CutAt(t, start, |a|);
    EndAt(a, start);
    SplitFromShift(a, b, |a|, |a| + 1, 0, 1);
    SliceOfAppend(a, b, start, |a|);
  }

  /** A split point of `a` before its end is one of `a + b`, and both splits cut there. */
  lemma PrefixCut(a: string, b: string, start: nat, i: nat)
    requires start <= i < |a| && (start < i || i == 0)
    requires b != [] && EndsOutsideWord(a) && IsSplitPoint(a, i)
    requires SplitFrom(a + b, i, i + 1) == SplitFrom(a, i, i + 1) + SplitFrom(b, 0, 1)
    ensures SplitFrom(a + b, start, i) == SplitFrom(a, start, i) + SplitFrom(b, 0, 1)
  {
    var t := a + b;
    SplitPointInPrefix(a, b, i);
    SliceOfAppend(a, b, start, i);
    CutAt(t, start, i);
    CutAt(a, start, i);
    ConsAppend(a[start..i], SplitFrom(a, i, i + 1), SplitFrom(b, 0, 1));
  }

  /** A position of `a` that is not a split point is not one of `a + b` either. */
  lemma PrefixSkip(a: string, b: string, start: nat, i: nat)
    requires start <= i < |a| && (start < i || i == 0)
    requires b != [] && EndsOutsideWord(a) && !IsSplitPoint(a, i)
    requires SplitFrom(a + b, start, i + 1) == SplitFrom(a, start, i + 1) + SplitFrom(b, 0, 1)
    ensures SplitFrom(a + b, start, i) == SplitFrom(a, start, i) + SplitFrom(b, 0, 1)
  {
    SplitPointInPrefix(a, b, i);
    SkipAt(a + b, start, i);
    SkipAt(a, start, i);
  }

  /** One step of the split at a split point: the current piece ends there. */
  lemma CutAt(t: string, start: nat, i: nat)
    requires start <= i < |t| && (start < i || i == 0) && IsSplitPoint(t, i)
    ensures SplitFrom(t, start, i) == [t[start..i]] + SplitFrom(t, i, i + 1)
  {
  }

  /** One step of the split elsewhere: the scan moves on. */
  lemma SkipAt(t: string, start: nat, i: nat)
    requires start <= i < |t| && (start < i || i == 0) && !IsSplitPoint(t, i)
    ensures SplitFrom(t, start, i) == SplitFrom(t, start, i + 1)
  {
  }

  /** At the end of the text, what is left is the last piece. */
  lemma EndAt(t: string, start: nat)
    requires start <= |t| && (start < |t| || |t| == 0)
    ensures SplitFrom(t, start, |t|) == [t[start..]]
  {
  }

  /** A slice inside `a` reads the same in `a + b`. */
  lemma SliceOfAppend(a: string, b: string, x: nat, y: nat)
    requires x <= y <= |a|
    ensures (a + b)[x..y] == a[x..y]
    ensures y == |a| ==> (a + b)[x..y] == a[x..]
  {
  }

  lemma ConsAppend(x: string, m: seq<string>, rest: seq<string>)
    ensures [x] + (m + rest) == ([x] + m) + rest
  {
  }

  /** Where `a` ends outside a word and `b` starts with a keyword, `a + b` has a split point. */
  lemma SplitPointAtJoin(a: string, b: string)
    requires a != [] && EndsOutsideWord(a) && StartsWithKeyword(b)
    ensures IsSplitPoint(a + b, |a|)
  {
    assert (a + b)[|a|..] == b;
    assert (a + b)[|a| - 1] == a[|a| - 1];
  }

  /**
   * A text that ends outside a word followed by one that starts with a
   * keyword is cut exactly there: its fragments are those of the first,
   * then those of the second after its empty leading one.
   */
  lemma FragmentsAppend(a: string, b: string)
    requires a != [] && EndsOutsideWord(a) && StartsWithKeyword(b)
    ensures Fragments(a + b) == Fragments(a) + Fragments(b)[1..]
  {
    SplitFromPrefix(a, b, 0, 0);
    assert IsSplitPoint(b, 0);
    assert Fragments(b) == [b[0..0]] + SplitFrom(b, 0, 1);
  }

  /** `update t set updated_at = 1 where id = 1` holds no comment opener. */
  lemma UpdatedAtNoComment()
    ensures var sql := "update t set " + "updated_at = 1 where id = 1";
      NoDoubleDash(sql) && NoCommentOpen(sql)
  {
  }

  /** `update t set updated_at = 1 where id = 1` is one stripped line, which the join leaves as it is. */
  lemma UpdatedAtOneLine()
    ensures var sql := "update t set " + "updated_at = 1 where id = 1";
      JoinLines(sql) == sql
  {
    var sql := "update t set " + "updated_at = 1 where id = 1";
    assert Trimmed(sql);
    NoBreakIsLine(sql);
    JoinLinesOne(sql);
  }

  /** With no split point from `i` on, the rest of the text is one piece. */
  lemma {:induction false} SplitFromToEnd(t: string, start: nat, i: nat)
    requires start <= i <= |t| && (start < i || i == 0)
    requires forall j :: i <= j < |t| ==> !IsSplitPoint(t, j)
    ensures SplitFrom(t, start, i) == [t[start..]]
    decreases |t| - i
  {
    if i < |t| {
      SplitFromToEnd(t, start, i + 1);
      SkipAt(t, start, i);
    } else {
      EndAt(t, start);
    }
  }

  /** A text that starts with a keyword and holds no other split point is one statement, after an empty fragment. */
  lemma OneStatement(x: string)
    requires StartsWithKeyword(x) && NoInnerSplit(x)
    ensures Fragments(x) == ["", x]
  {
    assert IsSplitPoint(x, 0);
    CutAt(x, 0, 0);
    SplitFromToEnd(x, 0, 1);
    assert x[0..] == x;
  }

  /** A split point needs a `d` or `u` after a character outside a word. */
  lemma NoInnerSplitByLetters(x: string)
    requires forall j :: 0 < j < |x| ==> IsWordChar(x[j - 1]) || !(Lower(x[j]) == 'd' || Lower(x[j]) == 'u')
    ensures NoInnerSplit(x)
  {
    forall j | 0 < j < |x| ensures !IsSplitPoint(x, j) {
      if StartsWithKeyword(x[j..]) {
        assert Lower(x[j..][0]) == 'd' || Lower(x[j..][0]) == 'u';
      }
    }
  }

  /** `update t set ` is one statement. */
  lemma SetPartFragments()
    ensures Fragments("update t set ") == ["", "update t set "]
  {
    var a := "update t set ";
    assert a[..6] == "update";
    NoInnerSplitByLetters(a);
    OneStatement(a);
  }

  /** `update t set ` ends outside a word. */
  lemma SetPartEnds()
    ensures EndsOutsideWord("update t set ")
  {
    var a := "update t set ";
    assert a[|a| - 1] == ' ';
  }

  /** `updated_at = 1 where id = 1` is one statement: `updated_at` starts with a keyword. */
  lemma UpdatedAtPartFragments()
    ensures Fragments("updated_at = 1 where id = 1") == ["", "updated_at = 1 where id = 1"]
  {
    var b := "updated_at = 1 where id = 1";
    assert b[..6] == "update";
    NoInnerSplitByLetters(b);
    OneStatement(b);
  }

  /**
   * The lookahead needs no word end after the keyword, so
   * `update t set updated_at = 1 where id = 1` is cut in front of
   * `updated_at`: into an empty fragment, `update t set ` and
   * `updated_at = 1 where id = 1`.
   */
  lemma UpdatedAtFragments()
    ensures Fragments("update t set " + "updated_at = 1 where id = 1") == ["", "update t set ", "updated_at = 1 where id = 1"]
  {
    SetPartFragments();
    SetPartEnds();
    UpdatedAtPartFragments();
    FragmentsAppend("update t set ", "updated_at = 1 where id = 1");
  }

  /** Every piece cut from a text without line breaks holds no `\n`. */
  lemma FragmentsNoNewline(t: string)
    requires NoLineBreak(t)
    ensures forall k :: 0 <= k < |Fragments(t)| ==> '\n' !in Fragments(t)[k]
  {
    JoinKeepsChars("", Fragments(t));
    assert '\n' !in t by {
      LineBreakIsSpace('\n');
    }
  }
}
