/** Stock optional-value datatype used by the recognisers. */
module Wrappers {
  datatype Option<+T> = None | Some(value: T)
}

/**
 * Character classes and string helpers shared by both generators.
 * Python's `str` methods and the regular-expression classes the
 * generators use are restricted here to ASCII text.
 */
module Ascii {

  /** Python's `str.isspace()` and the regex class `\s`, on ASCII. */
  predicate IsSpace(c: char) {
    c == ' ' || ('\t' <= c <= '\r') || ('\U{1C}' <= c <= '\U{1F}')
  }

  /** The characters at which `str.splitlines()` cuts a line, on ASCII. */
  predicate IsLineBreak(c: char) {
    c in {'\n', '\r', '\U{B}', '\U{C}', '\U{1C}', '\U{1D}', '\U{1E}'}
  }

  lemma LineBreakIsSpace(c: char)
    ensures IsLineBreak(c) ==> IsSpace(c)
  {
  }

  predicate IsDigit(c: char) {
    '0' <= c <= '9'
  }

  /** The regex class `[a-zA-Z0-9_]`, which is also what `\b` sees as a word character. */
  predicate IsWordChar(c: char) {
    ('a' <= c <= 'z') || ('A' <= c <= 'Z') || IsDigit(c) || c == '_'
  }

  /** The regex class `[a-zA-Z0-9_.]` used for table names. */
  predicate IsTableChar(c: char) {
    IsWordChar(c) || c == '.'
  }

  function Lower(c: char): (r: char)
    ensures 'A' <= c <= 'Z' ==> 'a' <= r <= 'z'
    ensures !('A' <= c <= 'Z') ==> r == c
  {
    if 'A' <= c <= 'Z' then (c as int + 32) as char else c
  }

  /** `s` begins with the lower-case keyword `kw`, compared ignoring ASCII case. */
  predicate StartsWithCI(s: string, kw: string) {
    |kw| <= |s| && forall i :: 0 <= i < |kw| ==> Lower(s[i]) == kw[i]
  }

  /** `s[i..]` begins with `pat`, compared exactly. */
  predicate HasAt(s: string, i: nat, pat: string) {
    i + |pat| <= |s| && s[i..i + |pat|] == pat
  }

  /** Python's `str.lstrip()`. */
  function LStrip(s: string): (r: string)
    ensures |r| <= |s| && r == s[|s| - |r|..]
    ensures r == [] || !IsSpace(r[0])
    ensures forall i :: 0 <= i < |s| - |r| ==> IsSpace(s[i])
  {
    if |s| > 0 && IsSpace(s[0]) then LStrip(s[1..]) else s
  }

  /** Python's `str.rstrip()`. */
  function RStrip(s: string): (r: string)
    ensures |r| <= |s| && r == s[..|r|]
    ensures r == [] || !IsSpace(r[|r| - 1])
    ensures forall i :: |r| <= i < |s| ==> IsSpace(s[i])
  {
    if |s| > 0 && IsSpace(s[|s| - 1]) then RStrip(s[..|s| - 1]) else s
  }

  /** `r` is `s[i..]` up to a run of blanks at the end, after a run of blanks before `i`. */
  predicate BlanksAround(s: string, i: nat, r: string) {
    i + |r| <= |s| && r == s[i..i + |r|]
    && (forall k :: 0 <= k < i ==> IsSpace(s[k]))
    && (forall k :: i + |r| <= k < |s| ==> IsSpace(s[k]))
  }

  /** Empty, or without a blank at either end. */
  predicate Unpadded(x: string) {
    x == [] || (!IsSpace(x[0]) && !IsSpace(x[|x| - 1]))
  }

  /** Python's `str.strip()`: only the runs of blanks at both ends are removed. */
  function Strip(s: string): (r: string)
    ensures r == [] || (!IsSpace(r[0]) && !IsSpace(r[|r| - 1]))
    ensures exists i :: BlanksAround(s, i, r)
    ensures s == [] || (!IsSpace(s[0]) && !IsSpace(s[|s| - 1])) ==> r == s
  {
    var t := RStrip(s);
    var r := LStrip(t);
    assert r == s[|t| - |r|..|t|];
    assert BlanksAround(s, |t| - |r|, r);
    r
  }

  /** Text without a blank at either end is its own `strip`. */
  lemma StripUnpadded(x: string)
    requires Unpadded(x)
    ensures Strip(x) == x
  {
  }

  /** A trailing blank after stripped text is all that `strip` removes. */
  lemma StripTrailingBlank(x: string, c: char)
    requires Unpadded(x) && IsSpace(c)
    ensures Strip(x + [c]) == x
  {
    var s := x + [c];
    assert s[..|s| - 1] == x;
    assert RStrip(s) == RStrip(x);
  }

  /** Python's `str.rstrip(c)` for a single character `c`. */
  function RStripChar(s: string, c: char): (r: string)
    ensures |r| <= |s| && r == s[..|r|]
    ensures r == [] || r[|r| - 1] != c
    ensures forall i :: |r| <= i < |s| ==> s[i] == c
  {
    if |s| > 0 && s[|s| - 1] == c then RStripChar(s[..|s| - 1], c) else s
  }

  /** Python's `str.lstrip(c)` for a single character `c`. */
  function LStripChar(s: string, c: char): (r: string)
    ensures |r| <= |s| && r == s[|s| - |r|..]
    ensures r == [] || r[0] != c
    ensures forall i :: 0 <= i < |s| - |r| ==> s[i] == c
  {
    if |s| > 0 && s[0] == c then LStripChar(s[1..], c) else s
  }

  /** Python's `str.split(sep)` for a single-character separator. */
  function SplitChar(s: string, sep: char): (r: seq<string>)
    ensures |r| > 0
    ensures forall k :: 0 <= k < |r| ==> sep !in r[k]
    ensures Join([sep], r) == s
  {
    if sep !in s then [s]
    else
      var i := FirstIndex(s, sep);
      var rest := SplitChar(s[i + 1..], sep);
      assert s == s[..i] + [sep] + s[i + 1..];
      [s[..i]] + rest
  }

  /** The position of the first `c` in `s`. */
  function FirstIndex(s: string, c: char): (i: nat)
    requires c in s
    ensures i < |s| && s[i] == c && c !in s[..i]
  {
    if s[0] == c then 0 else FirstIndex(s[1..], c) + 1
  }

  /** The first occurrence is the one with no occurrence before it. */
  lemma {:induction false} FirstIndexIs(s: string, c: char, i: nat)
    requires i < |s| && s[i] == c && c !in s[..i]
    ensures FirstIndex(s, c) == i
  {
    if i > 0 {
      assert s[0] == s[..i][0];
      assert s[1..][..i - 1] == s[..i][1..];
      FirstIndexIs(s[1..], c, i - 1);
    }
  }

  /** Python's `sep.join(parts)`: the parts in order, `sep` between each two. */
  function Join(sep: string, parts: seq<string>): (r: string)
    ensures parts == [] ==> r == []
    ensures parts != [] ==> |parts[0]| <= |r| && r[..|parts[0]|] == parts[0]
    ensures |parts| > 1 ==> |parts[0]| + |sep| <= |r| && r[|parts[0]|..|parts[0]| + |sep|] == sep
  {
    if |parts| == 0 then ""
    else if |parts| == 1 then parts[0]
    else parts[0] + sep + Join(sep, parts[1..])
  }

  /** Joining two non-empty lists is joining each and putting `sep` between them. */
  lemma {:induction false} JoinAppend(sep: string, a: seq<string>, b: seq<string>)
    requires a != [] && b != []
    ensures Join(sep, a + b) == Join(sep, a) + sep + Join(sep, b)
    decreases |a|
  {
    if |a| == 1 {
      assert (a + b)[1..] == b;
    } else {
      assert (a + b)[1..] == a[1..] + b;
      JoinAppend(sep, a[1..], b);
    }
  }

  /** Every character of every part also occurs in the joined text. */
  lemma {:induction false} JoinKeepsChars(sep: string, parts: seq<string>)
    ensures forall k, c :: 0 <= k < |parts| && c in parts[k] ==> c in Join(sep, parts)
  {
    if |parts| > 1 {
      JoinKeepsChars(sep, parts[1..]);
      forall k, c | 0 <= k < |parts| && c in parts[k] ensures c in Join(sep, parts) {
        if k > 0 { assert parts[k] == parts[1..][k - 1]; }
      }
    }
  }

  /** Every element of `parts` passed through `Strip`, as a list comprehension would. */
  function StripAll(parts: seq<string>): (r: seq<string>)
    ensures |r| == |parts|
    ensures forall k :: 0 <= k < |r| ==> r[k] == Strip(parts[k])
  {
    seq(|parts|, k requires 0 <= k < |parts| => Strip(parts[k]))
  }

  /** Every stripped part is empty or starts and ends with a non-blank, and holds no `c` when the part held none. */
  lemma StripAllFacts(parts: seq<string>, c: char)
    requires forall k :: 0 <= k < |parts| ==> c !in parts[k]
    ensures forall k :: 0 <= k < |parts| ==> c !in StripAll(parts)[k] && Unpadded(StripAll(parts)[k])
  {
    var r := StripAll(parts);
    forall k | 0 <= k < |parts| ensures c !in r[k] && Unpadded(r[k]) {
      assert r[k] == Strip(parts[k]);
    }
  }

  /** Python's `<` on strings: lexicographic order by code point, a proper prefix first. */
  predicate StrLt(a: string, b: string) {
    |b| > 0 && (|a| == 0 || (if a[0] != b[0] then a[0] < b[0] else StrLt(a[1..], b[1..])))
  }

  lemma {:induction false} StrLtIrreflexive(a: string)
    ensures !StrLt(a, a)
  {
    if |a| > 0 { StrLtIrreflexive(a[1..]); }
  }

  lemma {:induction false} StrLtTransitive(a: string, b: string, c: string)
    requires StrLt(a, b) && StrLt(b, c)
    ensures StrLt(a, c)
  {
    if |a| > 0 && a[0] == b[0] && b[0] == c[0] {
      StrLtTransitive(a[1..], b[1..], c[1..]);
    }
  }

  lemma {:induction false} StrLtTotal(a: string, b: string)
    requires a != b
    ensures StrLt(a, b) || StrLt(b, a)
  {
    if |a| > 0 && |b| > 0 && a[0] == b[0] {
      assert a == [a[0]] + a[1..] && b == [b[0]] + b[1..];
      StrLtTotal(a[1..], b[1..]);
    }
  }

  predicate IsLeast(m: string, s: set<string>) {
    m in s && forall x :: x in s ==> !StrLt(x, m)
  }

  lemma {:induction false} LeastExists(s: set<string>)
    requires s != {}
    ensures exists m :: IsLeast(m, s)
    decreases |s|
  {
    var y :| y in s;
    if s == {y} {
      StrLtIrreflexive(y);
      assert IsLeast(y, s);
    } else {
      var rest := s - {y};
      LeastExists(rest);
      var m :| IsLeast(m, rest);
      if StrLt(y, m) {
        forall x | x in s ensures !StrLt(x, y) {
          if x == y {
            StrLtIrreflexive(y);
          } else if StrLt(x, y) {
            StrLtTransitive(x, y, m);
          }
        }
        assert IsLeast(y, s);
      } else {
        assert IsLeast(m, s);
      }
    }
  }

  lemma LeastUnique(s: set<string>)
    ensures forall m1, m2 :: IsLeast(m1, s) && IsLeast(m2, s) ==> m1 == m2
  {
    forall m1, m2 | IsLeast(m1, s) && IsLeast(m2, s) ensures m1 == m2 {
      if m1 != m2 { StrLtTotal(m1, m2); }
    }
  }

  predicate StrictlyAscending(r: seq<string>) {
    forall i, j :: 0 <= i < j < |r| ==> StrLt(r[i], r[j])
  }

  /**
   * Python's `sorted(vals, key=lambda x: str(x))` for a set of strings:
   * the elements of the set in ascending string order, each once.
   */
  function SortedList(s: set<string>): (r: seq<string>)
    ensures StrictlyAscending(r)
    ensures forall x :: x in r <==> x in s
    ensures |r| == |s|
    decreases |s|
  {
    if s == {} then []
    else
      LeastExists(s);
      LeastUnique(s);
      var m :| IsLeast(m, s);
      var tail := SortedList(s - {m});
      var r := [m] + tail;
      assert forall j :: 0 < j < |r| ==> StrLt(m, r[j]) by {
        forall j | 0 < j < |r| ensures StrLt(m, r[j]) {
          assert r[j] == tail[j - 1] && tail[j - 1] in tail;
          assert r[j] in s && r[j] != m;
          StrLtTotal(m, r[j]);
        }
      }
      r
  }
}
