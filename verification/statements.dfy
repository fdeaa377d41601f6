/**
 * The statement classifier: the recognisers for
 *   `update\s+([a-zA-Z0-9_.]+)\s+set\s+.+?\s+where\s+(.+)` and
 *   `delete\s+from\s+([a-zA-Z0-9_.]+)\s+where\s+(.+)`
 * matched at the start of a fragment, ignoring case, written out with the
 * order in which a backtracking matcher tries the alternatives. They are
 * stated for fragments without `\n`, which is all the normaliser produces.
 */
module Statements {
  import opened Wrappers
  import opened Ascii

  /** The two groups of a successful match: the table name and the raw WHERE text. */
  datatype Target = Target(table: string, where: string)

  /** `s` holds no `\n`, the one character the regex dot does not match. */
  predicate OneLine(s: string) {
    '\n' !in s
  }

  /** The end of the run of whitespace that starts at `i` (greedy `\s*`). */
  function SkipSpace(s: string, i: nat): (j: nat)
    requires i <= |s|
    ensures i <= j <= |s| && (j < |s| ==> !IsSpace(s[j]))
    ensures forall k :: i <= k < j ==> IsSpace(s[k])
    decreases |s| - i
  {
    if i < |s| && IsSpace(s[i]) then SkipSpace(s, i + 1) else i
  }

  /** The end of the run of table-name characters that starts at `i` (greedy `[a-zA-Z0-9_.]+`). */
  function SkipTable(s: string, i: nat): (j: nat)
    requires i <= |s|
    ensures i <= j <= |s| && (j < |s| ==> !IsTableChar(s[j]))
    ensures forall k :: i <= k < j ==> IsTableChar(s[k])
    decreases |s| - i
  {
    if i < |s| && IsTableChar(s[i]) then SkipTable(s, i + 1) else i
  }

  /**
   * The group `(.+)` after `where\s+`, for a keyword starting at `d`. The
   * greedy `\s+` takes the whole run of whitespace; only when that run
   * reaches the end of the text does it give back one character, which
   * `.+` then takes.
   */
  function WhereTail(s: string, d: nat): (r: Option<string>)
    requires d + 5 <= |s| && OneLine(s)
    ensures r.Some? ==> r.value != [] && d + 6 <= |s| - |r.value| && r.value == s[|s| - |r.value|..]
    ensures r.Some? ==> forall k :: d + 5 <= k < |s| - |r.value| ==> IsSpace(s[k])
  {
    var f := SkipSpace(s, d + 5);
    if f == d + 5 then None
    else if f < |s| then Some(s[f..])
    else if f - 1 >= d + 6 then Some(s[f - 1..])
    else None
  }

  /** `where` (any case) starts at `d`, after whitespace, and a WHERE text follows it. */
  predicate WhereAt(s: string, d: nat)
    requires OneLine(s)
  {
    0 < d && d + 5 <= |s| && IsSpace(s[d - 1]) && StartsWithCI(s[d..], "where") && WhereTail(s, d).Some?
  }

  /** The first `d >= i` at which `WhereAt` holds: the lazy `.+?` stops at the first workable `where`. */
  function FirstWhere(s: string, i: nat): (r: Option<nat>)
    requires OneLine(s) && i <= |s|
    ensures r.Some? ==> i <= r.value && WhereAt(s, r.value)
    ensures r.Some? ==> forall d :: i <= d < r.value ==> !WhereAt(s, d)
    ensures r.None? ==> forall d :: i <= d <= |s| ==> !WhereAt(s, d)
    decreases |s| - i
  {
    if i + 5 > |s| then None
    else if WhereAt(s, i) then Some(i)
    else FirstWhere(s, i + 1)
  }

  /**
   * `update\s+([a-zA-Z0-9_.]+)\s+set\s+.+?\s+where\s+(.+)` at the start of
   * `s`, ignoring case. After `set` the greedy `\s+` first takes the whole
   * whitespace run (ending at `e`) and the lazy `.+?` then looks for the
   * first workable `where` at least two characters further on. Failing
   * that, `\s+` gives back whitespace so that `.+?` can consume one blank:
   * this succeeds exactly when `where` follows at least three blanks.
   */
  function MatchUpdate(s: string): (r: Option<Target>)
    requires OneLine(s)
    ensures r.Some? ==> StartsWithCI(s, "update")
    ensures r.Some? ==> r.value.table != [] && forall k :: 0 <= k < |r.value.table| ==> IsTableChar(r.value.table[k])
    ensures r.Some? ==> r.value.where != [] && |r.value.where| <= |s| && r.value.where == s[|s| - |r.value.where|..]
  {
    if !StartsWithCI(s, "update") then None
    else
      var a := SkipSpace(s, 6);
      if a == 6 then None
      else
        var e := SkipTable(s, a);
        if e == a then None
        else
          var p := SkipSpace(s, e);
          if p == e || !StartsWithCI(s[p..], "set") then None
          else
            var q := SkipSpace(s, p + 3);
            if q == p + 3 then None
            else
              var w := SetTail(s, p, q);
              if w.Some? then Some(Target(s[a..e], w.value)) else None
  }

  /**
   * `.+?\s+where\s+(.+)` after `set` (at `p`) and the whitespace run that
   * ends at `q`: the WHERE text, found as described above.
   */
  function SetTail(s: string, p: nat, q: nat): (r: Option<string>)
    requires OneLine(s) && p + 3 <= q <= |s|
    ensures r.Some? ==> r.value != [] && |r.value| <= |s| && r.value == s[|s| - |r.value|..]
  {
    match FirstWhere(s, if q + 2 <= |s| then q + 2 else |s|)
    case Some(d) => Some(WhereTail(s, d).value)
    case None => if q >= p + 6 && WhereAt(s, q) then Some(WhereTail(s, q).value) else None
  }

  /** `delete\s+from\s+([a-zA-Z0-9_.]+)\s+where\s+(.+)` at the start of `s`, ignoring case. */
  function MatchDelete(s: string): (r: Option<Target>)
    requires OneLine(s)
    ensures r.Some? ==> StartsWithCI(s, "delete")
    ensures r.Some? ==> r.value.table != [] && forall k :: 0 <= k < |r.value.table| ==> IsTableChar(r.value.table[k])
    ensures r.Some? ==> r.value.where != [] && |r.value.where| <= |s| && r.value.where == s[|s| - |r.value.where|..]
  {
    if !StartsWithCI(s, "delete") then None
    else
      var a := SkipSpace(s, 6);
      if a == 6 || !StartsWithCI(s[a..], "from") then None
      else
        var b := SkipSpace(s, a + 4);
        if b == a + 4 then None
        else TableAndWhere(s, b)
  }

  /** `([a-zA-Z0-9_.]+)\s+where\s+(.+)` from `b` to the end of `s`. */
  function TableAndWhere(s: string, b: nat): (r: Option<Target>)
    requires OneLine(s) && b <= |s|
    ensures r.Some? ==> r.value.table != [] && forall k :: 0 <= k < |r.value.table| ==> IsTableChar(r.value.table[k])
    ensures r.Some? ==> r.value.where != [] && |r.value.where| <= |s| && r.value.where == s[|s| - |r.value.where|..]
  {
    var e := SkipTable(s, b);
    if e == b then None
    else
      var d := SkipSpace(s, e);
      if d == e || !WhereAt(s, d) then None
      else Some(Target(s[b..e], WhereTail(s, d).value))
  }

  /** The UPDATE shape is tried first, then the DELETE shape. */
  function MatchStatement(s: string): (r: Option<Target>)
    requires OneLine(s)
    ensures r.Some? ==> StartsWithCI(s, "update") || StartsWithCI(s, "delete")
    ensures r.Some? ==> r.value.table != [] && forall k :: 0 <= k < |r.value.table| ==> IsTableChar(r.value.table[k])
    ensures r.Some? ==> r.value.where != [] && |r.value.where| <= |s| && r.value.where == s[|s| - |r.value.where|..]
  {
    var u := MatchUpdate(s);
    if u.Some? then u else MatchDelete(s)
  }

  /** The WHERE text of a recognised statement is a one-line text too. */
  lemma WhereOneLine(s: string)
    requires OneLine(s) && MatchStatement(s).Some?
    ensures OneLine(MatchStatement(s).value.where)
  {
  }

  /** `group(2).strip().rstrip(";")`: the WHERE text without surrounding blanks and trailing `;`. */
  function CleanWhere(w: string): (r: string)
    ensures r == [] || r[|r| - 1] != ';'
    ensures r == [] || !IsSpace(r[0])
    ensures var t := Strip(w); |r| <= |t| && r == t[..|r|] && forall k :: |r| <= k < |t| ==> t[k] == ';'
  {
    RStripChar(Strip(w), ';')
  }

  /** The cleaned WHERE text of a one-line statement is one line too. */
  lemma CleanWhereOneLine(w: string)
    requires OneLine(w)
    ensures OneLine(CleanWhere(w))
  {
    var t := Strip(w);
    assert '\n' !in t;
    assert CleanWhere(w) == t[..|CleanWhere(w)|];
  }

  /** The transaction-control prefixes `set `, `commit` and `rollback` that one generator skips. */
  predicate IsControl(s: string) {
    StartsWithCI(s, "set ") || StartsWithCI(s, "commit") || StartsWithCI(s, "rollback")
  }

  /**
   * A transaction-control text never has either statement shape: it starts
   * with `s`, `c` or `r`, a statement with `u` or `d`. The skip of lines
   * 29-30 of one generator therefore changes nothing about its result.
   */
  lemma ControlIsNotStatement(s: string)
    requires OneLine(s) && IsControl(s)
    ensures MatchStatement(s).None?
  {
    assert Lower(s[0]) in {'s', 'c', 'r'};
  }

  /** Both shapes end in `\s+where\s+(.+)`: a text with no workable `where` matches neither. */
  lemma MatchNeedsWhere(s: string)
    requires OneLine(s)
    ensures (forall d :: !WhereAt(s, d)) ==> MatchStatement(s).None?
  {
    if forall d :: !WhereAt(s, d) {
      forall p: nat, q: nat | p + 3 <= q <= |s| ensures SetTail(s, p, q).None? {
        SetTailNeedsWhere(s, p, q);
      }
      forall b: nat | b <= |s| ensures TableAndWhere(s, b).None? {
      }
    }
  }

  /** The text after `set` yields a WHERE text only at a workable `where`. */
  lemma SetTailNeedsWhere(s: string, p: nat, q: nat)
    requires OneLine(s) && p + 3 <= q <= |s| && forall d :: !WhereAt(s, d)
    ensures SetTail(s, p, q).None?
  {
  }

  /** `update t set`, the head that remains when `updated_at` is cut off, has no WHERE and is no statement. */
  lemma SetHeadIsNotStatement()
    ensures MatchStatement("update t set").None?
  {
  }

  /** Both fragments of `update t set updated_at = 1 where id = 1` are one line. */
  lemma UpdatedAtPartsOneLine()
    ensures OneLine("update t set ") && OneLine("updated_at = 1 where id = 1")
  {
  }

  /** The fragment `updated_at = 1 where id = 1` has no blank to strip. */
  lemma UpdatedAtPartStrip()
    ensures Strip("updated_at = 1 where id = 1") == "updated_at = 1 where id = 1"
  {
    var b := "updated_at = 1 where id = 1";
    assert Unpadded(b) by {
      assert b[0] == 'u' && b[|b| - 1] == '1';
    }
    StripUnpadded(b);
  }

  /** The fragment `update t set ` strips to `update t set`. */
  lemma SetHeadStrip()
    ensures Strip("update t set ") == "update t set"
  {
    StripTrailingBlank("update t set", ' ');
    assert "update t set" + [' '] == "update t set ";
  }

  /** `updated_at = 1 where id = 1` starts with `update` but has no blank after it, so it is no statement. */
  lemma UpdatedAtIsNotStatement()
    ensures MatchStatement("updated_at = 1 where id = 1").None?
  {
    var s := "updated_at = 1 where id = 1";
    assert s[6] == 'd';
    assert SkipSpace(s, 6) == 6;
    assert !StartsWithCI(s, "delete") by {
      assert Lower(s[0]) == 'u';
    }
  }
  // ---------------------------------------------------------------------
  // The recognisers read back the statements they are written for.
  // ---------------------------------------------------------------------

  /** A table name: one or more table-name characters. */
  predicate IsTableName(t: string) {
    t != [] && forall k :: 0 <= k < |t| ==> IsTableChar(t[k])
  }

  /** A WHERE text the `(.+)` group returns whole: one line, starting with a non-blank. */
  predicate IsWhereText(w: string) {
    w != [] && OneLine(w) && !IsSpace(w[0])
  }

  /** `x` stands in `s` at position `i`. */
  predicate Placed(s: string, i: nat, x: string) {
    i + |x| <= |s| && forall k :: i <= k < i + |x| ==> s[k] == x[k - i]
  }

  lemma PlacedFront(x: string, y: string)
    ensures Placed(x + y, 0, x) && Placed(x + y, |x|, y)
  {
  }

  lemma PlacedKept(s: string, i: nat, x: string, y: string)
    requires Placed(s, i, x)
    ensures Placed(s + y, i, x)
  {
  }

  lemma PlacedKeptTwice(s: string, i: nat, x: string, y: string, z: string)
    requires Placed(s, i, x)
    ensures Placed(s + y + z, i, x)
  {
  }

  /** ` where <w>` appended to `p` stands right after it. */
  lemma WhereAppended(p: string, w: string)
    ensures var s := p + " where " + w;
      |s| == |p| + 7 + |w| && Placed(s, |p|, " where ") && Placed(s, |p| + 1, "where ") && Placed(s, |p| + 7, w)
  {
    var s := p + " where " + w;
    PlacedFront(p, " where ");
    PlacedKept(p + " where ", |p|, " where ", w);
    PlacedFront(p + " where ", w);
    assert " where "[1..] == "where ";
    forall k | |p| + 1 <= k < |p| + 7 ensures s[k] == "where "[k - |p| - 1] {
      assert s[k] == " where "[k - |p|] == " where "[1..][k - |p| - 1];
    }
  }

  /** A text placed at the end of `s` is the suffix of `s` from there. */
  lemma PlacedSuffix(s: string, i: nat, x: string)
    requires Placed(s, i, x) && |s| == i + |x|
    ensures s[i..] == x
  {
  }

  lemma PlacedSlice(s: string, i: nat, x: string)
    requires Placed(s, i, x)
    ensures s[i..i + |x|] == x
  {
  }

  /** `where` followed by one blank and a WHERE text that ends `s`, at `d` after a blank, is a workable `where`. */
  lemma WhereAtKeyword(s: string, d: nat, w: string)
    requires Placed(s, d, "where ") && Placed(s, d + 6, w) && |s| == d + 6 + |w|
    requires OneLine(s) && IsWhereText(w) && 0 < d && IsSpace(s[d - 1])
    ensures WhereAt(s, d) && WhereTail(s, d) == Some(w)
  {
    assert s[d + 6] == w[0];
    assert SkipSpace(s, d + 6) == d + 6;
    assert forall j :: 0 <= j < 5 ==> s[d..][j] == "where"[j];
    PlacedSuffix(s, d + 6, w);
  }

  /** `FirstWhere` finds `e` when no earlier position from `i` on is a workable `where`. */
  lemma FirstWhereIs(s: string, i: nat, e: nat)
    requires OneLine(s) && i <= e && WhereAt(s, e)
    requires forall d :: i <= d < e ==> !WhereAt(s, d)
    ensures FirstWhere(s, i) == Some(e)
  {
  }

  /** `s` is laid out as `delete from <t> where <w>`. */
  predicate DeleteLayout(s: string, t: string, w: string) {
    var e := 12 + |t|;
    |s| == e + 7 + |w| && Placed(s, 0, "delete from ") && Placed(s, 12, t)
    && Placed(s, e, " where ") && Placed(s, e + 1, "where ") && Placed(s, e + 7, w)
  }

  lemma DeleteLayoutOf(t: string, w: string)
    ensures DeleteLayout("delete from " + t + " where " + w, t, w)
  {
    var p := "delete from " + t;
    PlacedFront("delete from ", t);
    WhereAppended(p, w);
    PlacedKeptTwice(p, 0, "delete from ", " where ", w);
    PlacedKeptTwice(p, 12, t, " where ", w);
  }

  /** The keywords the DELETE recogniser reads on such a layout. */
  lemma DeleteHead(s: string, t: string, w: string)
    requires DeleteLayout(s, t, w) && IsTableName(t)
    ensures !StartsWithCI(s, "update") && StartsWithCI(s, "delete")
    ensures SkipSpace(s, 6) == 7 && StartsWithCI(s[7..], "from") && SkipSpace(s, 11) == 12
  {
    assert Lower(s[0]) == 'd';
    assert s[12] == t[0];
    assert SkipSpace(s, 7) == 7;
    assert SkipSpace(s, 12) == 12;
    assert forall j :: 0 <= j < 4 ==> s[7..][j] == "from"[j];
  }

  /** A table name placed at `i` and followed by a blank is the run `SkipTable` takes from `i`. */
  lemma TableRun(s: string, i: nat, t: string)
    requires Placed(s, i, t) && IsTableName(t) && i + |t| < |s| && s[i + |t|] == ' '
    ensures SkipTable(s, i) == i + |t| && s[i..i + |t|] == t
  {
    SkipTableOver(s, i, i + |t|);
    PlacedSlice(s, i, t);
  }

  /** ` where <w>` ending `s` at `e`: one blank, then a workable `where` whose tail is `w`. */
  lemma WhereAfterBlank(s: string, e: nat, w: string)
    requires Placed(s, e + 1, "where ") && Placed(s, e + 7, w) && |s| == e + 7 + |w| && s[e] == ' '
    requires OneLine(s) && IsWhereText(w)
    ensures SkipSpace(s, e) == e + 1 && WhereAt(s, e + 1) && WhereTail(s, e + 1) == Some(w)
  {
    assert SkipSpace(s, e + 1) == e + 1;
    WhereAtKeyword(s, e + 1, w);
  }

  /** The table name and the WHERE text the DELETE recogniser finds on such a layout. */
  lemma DeleteTail(s: string, t: string, w: string)
    requires DeleteLayout(s, t, w) && IsTableName(t) && IsWhereText(w) && OneLine(s)
    ensures var e := 12 + |t|;
      SkipTable(s, 12) == e && SkipSpace(s, e) == e + 1 && s[12..e] == t
      && WhereAt(s, e + 1) && WhereTail(s, e + 1) == Some(w)
  {
    var e := 12 + |t|;
    assert s[e] == ' ';
    TableRun(s, 12, t);
    WhereAfterBlank(s, e, w);
  }

  /** A `delete from <t> where <w>` text has no line break. */
  lemma DeleteOneLine(t: string, w: string)
    requires IsTableName(t) && IsWhereText(w)
    ensures OneLine("delete from " + t + " where " + w)
  {
    assert '\n' !in t by { assert !IsTableChar('\n'); }
  }

  /** `delete from <t> where <w>` is read back as table `t` with WHERE text `w`. */
  lemma DeleteRecognised(t: string, w: string)
    requires IsTableName(t) && IsWhereText(w)
    ensures var s := "delete from " + t + " where " + w;
      OneLine(s) && MatchStatement(s) == Some(Target(t, w))
  {
    var s := "delete from " + t + " where " + w;
    DeleteLayoutOf(t, w);
    DeleteOneLine(t, w);
    DeleteHead(s, t, w);
    DeleteTail(s, t, w);
  }

  /** The run of table-name characters from `i` ends at `e` when `s[e]` is not one of them. */
  lemma {:induction false} SkipTableOver(s: string, i: nat, e: nat)
    requires i <= e <= |s|
    requires forall k :: i <= k < e ==> IsTableChar(s[k])
    requires e < |s| ==> !IsTableChar(s[e])
    ensures SkipTable(s, i) == e
    decreases e - i
  {
    if i < e {
      SkipTableOver(s, i + 1, e);
    }
  }

  /** The run of whitespace from `i` ends at `e` when `s[e]` is not whitespace. */
  lemma {:induction false} SkipSpaceOver(s: string, i: nat, e: nat)
    requires i <= e <= |s|
    requires forall k :: i <= k < e ==> IsSpace(s[k])
    requires e < |s| ==> !IsSpace(s[e])
    ensures SkipSpace(s, i) == e
    decreases e - i
  {
    if i < e {
      SkipSpaceOver(s, i + 1, e);
    }
  }

  /** `s` is laid out as `update <t> set <a> where <w>`. */
  predicate UpdateLayout(s: string, t: string, a: string, w: string) {
    var e := 7 + |t|;
    var d := e + 6 + |a|;
    |s| == d + 6 + |w| && Placed(s, 0, "update ") && Placed(s, 7, t) && Placed(s, e, " set ")
    && Placed(s, e + 5, a) && Placed(s, d - 1, " where ") && Placed(s, d, "where ") && Placed(s, d + 6, w)
  }

  /** The layout of the part before ` where `. */
  lemma UpdatePrefixLayout(t: string, a: string)
    ensures var s := "update " + t + " set " + a;
      var e := 7 + |t|;
      |s| == e + 5 + |a| && Placed(s, 0, "update ") && Placed(s, 7, t)
      && Placed(s, e, " set ") && Placed(s, e + 5, a)
  {
    var e := 7 + |t|;
    var s1 := "update " + t;
    var s2 := s1 + " set ";
    PlacedFront("update ", t);
    PlacedFront(s1, " set ");
    PlacedKept(s1, 0, "update ", " set ");
    PlacedKept(s1, 7, t, " set ");
    PlacedFront(s2, a);
    PlacedKept(s2, 0, "update ", a);
    PlacedKept(s2, 7, t, a);
    PlacedKept(s2, e, " set ", a);
  }

  lemma UpdateLayoutOf(t: string, a: string, w: string)
    ensures UpdateLayout("update " + t + " set " + a + " where " + w, t, a, w)
  {
    var e := 7 + |t|;
    var p := "update " + t + " set " + a;
    UpdatePrefixLayout(t, a);
    WhereAppended(p, w);
    PlacedKeptTwice(p, 0, "update ", " where ", w);
    PlacedKeptTwice(p, 7, t, " where ", w);
    PlacedKeptTwice(p, e, " set ", " where ", w);
    PlacedKeptTwice(p, e + 5, a, " where ", w);
  }

  /** The table name and the `set` keyword the UPDATE recogniser reads on such a layout. */
  lemma UpdateHead(s: string, t: string, a: string, w: string)
    requires UpdateLayout(s, t, a, w) && IsTableName(t) && a != [] && !IsSpace(a[0])
    ensures var e := 7 + |t|;
      StartsWithCI(s, "update") && SkipSpace(s, 6) == 7 && SkipTable(s, 7) == e && s[7..e] == t
      && SkipSpace(s, e) == e + 1 && StartsWithCI(s[e + 1..], "set") && SkipSpace(s, e + 4) == e + 5
  {
    var e := 7 + |t|;
    assert s[e + 5] == a[0];
    assert SkipSpace(s, 7) == 7;
    assert s[e] == ' ';
    TableRun(s, 7, t);
    assert SkipSpace(s, e + 1) == e + 1;
    assert SkipSpace(s, e + 5) == e + 5;
    assert forall j :: 0 <= j < 3 ==> s[e + 1..][j] == "set"[j];
  }

  /**
   * A blank, `where` (any case) and then a blank or the end of `a`, with the
   * keyword at `j`: a place inside an assignment where the lazy `.+?` could
   * already stop.
   */
  predicate WhereWordAt(a: string, j: nat) {
    0 < j && j + 5 <= |a| && IsSpace(a[j - 1]) && StartsWithCI(a[j..], "where") && (j + 5 == |a| || IsSpace(a[j + 5]))
  }

  /** A workable `where` before the one that ends the assignment is such a place inside it. */
  lemma WhereInAssignment(s: string, t: string, a: string, w: string, d: nat)
    requires UpdateLayout(s, t, a, w) && OneLine(s)
    requires 14 + |t| <= d < 13 + |t| + |a|
    ensures WhereAt(s, d) ==> WhereWordAt(a, d - (12 + |t|))
  {
    var q := 12 + |t|;
    var j := d - q;
    if WhereAt(s, d) {
      assert s[q + |a|] == ' ';
      assert s[d - 1] == a[j - 1];
      assert forall i :: 0 <= i < 5 ==> a[j..][i] == s[d..][i];
      assert StartsWithCI(a[j..], "where");
      assert IsSpace(s[d + 5]);
      assert j + 5 < |a| ==> a[j + 5] == s[d + 5];
    }
  }

  /** The first workable `where` after the assignment is the one that ends it. */
  lemma UpdateTail(s: string, t: string, a: string, w: string)
    requires UpdateLayout(s, t, a, w) && IsWhereText(w) && OneLine(s)
    requires a != [] && forall j :: !WhereWordAt(a, j)
    ensures var q := 12 + |t|;
      q + 2 <= |s| && SetTail(s, q - 4, q) == Some(w)
  {
    var q := 12 + |t|;
    var d := q + |a| + 1;
    WhereAtKeyword(s, d, w);
    forall e | q + 2 <= e < d ensures !WhereAt(s, e) {
      WhereInAssignment(s, t, a, w, e);
      assert !WhereWordAt(a, e - q);
    }
    FirstWhereIs(s, q + 2, d);
  }

  /** An `update <t> set <a> where <w>` text with a one-line `a` has no line break. */
  lemma UpdateOneLine(t: string, a: string, w: string)
    requires IsTableName(t) && IsWhereText(w) && OneLine(a)
    ensures OneLine("update " + t + " set " + a + " where " + w)
  {
    assert '\n' !in t by { assert !IsTableChar('\n'); }
  }

  /**
   * `update <t> set <a> where <w>` is read back as table `t` with WHERE
   * text `w`, for a one-line assignment `a` that starts with a non-blank
   * and holds no blank-surrounded `where` of its own.
   */
  lemma UpdateRecognised(t: string, a: string, w: string)
    requires IsTableName(t) && IsWhereText(w)
    requires a != [] && !IsSpace(a[0]) && OneLine(a) && forall j :: !WhereWordAt(a, j)
    ensures var s := "update " + t + " set " + a + " where " + w;
      OneLine(s) && MatchStatement(s) == Some(Target(t, w))
  {
    var s := "update " + t + " set " + a + " where " + w;
    UpdateLayoutOf(t, a, w);
    UpdateOneLine(t, a, w);
    UpdateHead(s, t, a, w);
    UpdateTail(s, t, a, w);
  }
}
