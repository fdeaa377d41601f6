/**
 * The predicate analyser: the WHERE text is cut at every `AND` between
 * word boundaries, and each conjunct is matched against the conjunct
 * pattern of one generator or the other.
 */
module Conditions {
  import opened Wrappers
  import opened Ascii
  import Statements

  /** The word `and` (any case) stands at `i` between word boundaries: a match of `\bAND\b`. */
  predicate AndAt(w: string, i: nat) {
    i + 3 <= |w| && StartsWithCI(w[i..], "and")
    && (i == 0 || !IsWordChar(w[i - 1]))
    && (i + 3 == |w| || !IsWordChar(w[i + 3]))
  }

  /** `re.split` at the `AND` matches found from `i` on; the current piece began at `start`. */
  function SplitAndFrom(w: string, start: nat, i: nat): (r: seq<string>)
    requires start <= i <= |w|
    ensures |r| > 0
    decreases |w| - i
  {
    if i == |w| then [w[start..]]
    else if AndAt(w, i) then [w[start..i]] + SplitAndFrom(w, i + 3, i + 3)
    else SplitAndFrom(w, start, i + 1)
  }

  /** With no match from `i` on, what is left is one piece. */
  lemma {:induction false} SplitAndFromNoMatch(w: string, start: nat, i: nat)
    requires start <= i <= |w|
    ensures (forall j :: i <= j < |w| ==> !AndAt(w, j)) ==> SplitAndFrom(w, start, i) == [w[start..]]
    decreases |w| - i
  {
    if i < |w| && !AndAt(w, i) {
      SplitAndFromNoMatch(w, start, i + 1);
    }
  }

  /** The conjuncts of a WHERE text, each stripped: `[c.strip() for c in re.split(r"\bAND\b", ...)]`. */
  function Conjuncts(w: string): (r: seq<string>)
    ensures |r| > 0
    ensures (forall j :: 0 <= j < |w| ==> !AndAt(w, j)) ==> r == [Strip(w)]
  {
    SplitAndFromNoMatch(w, 0, 0);
    StripAll(SplitAndFrom(w, 0, 0))
  }

  /** The conjuncts of a recognised statement's cleaned WHERE text (lines 38-47 of one generator, 28-36 of the other). */
  function ConjunctsOf(target: Statements.Target): (r: seq<string>)
    requires Statements.OneLine(target.where)
    ensures r != [] && forall k :: 0 <= k < |r| ==> Statements.OneLine(r[k])
  {
    var where := Statements.CleanWhere(target.where);
    Statements.CleanWhereOneLine(target.where);
    ConjunctsOneLine(where);
    Conjuncts(where)
  }

  /** A text without `\n` keeps that property in every piece cut from it. */
  lemma {:induction false} SplitAndFromOneLine(w: string, start: nat, i: nat)
    requires start <= i <= |w| && Statements.OneLine(w)
    ensures forall k :: 0 <= k < |SplitAndFrom(w, start, i)| ==> Statements.OneLine(SplitAndFrom(w, start, i)[k])
    decreases |w| - i
  {
    if i == |w| {
    } else if AndAt(w, i) {
      SplitAndFromOneLine(w, i + 3, i + 3);
    } else {
      SplitAndFromOneLine(w, start, i + 1);
    }
  }

  lemma ConjunctsOneLine(w: string)
    requires Statements.OneLine(w)
    ensures forall k :: 0 <= k < |Conjuncts(w)| ==> Statements.OneLine(Conjuncts(w)[k])
  {
    SplitAndFromOneLine(w, 0, 0);
    var pieces := SplitAndFrom(w, 0, 0);
    forall k | 0 <= k < |pieces| ensures Statements.OneLine(Strip(pieces[k])) {
      assert Statements.OneLine(pieces[k]);
    }
  }

  /** Three characters that spell `and` in any case: what one `\bAND\b` match consumes. */
  predicate IsAndWord(s: string) {
    |s| == 3 && StartsWithCI(s, "and")
  }

  /** The pieces with the separators put back between them. */
  function Interleave(parts: seq<string>, seps: seq<string>): (r: string)
    requires |parts| == |seps| + 1
    ensures |parts[0]| <= |r| && r[..|parts[0]|] == parts[0]
    decreases |seps|
  {
    if seps == [] then parts[0] else parts[0] + seps[0] + Interleave(parts[1..], seps[1..])
  }

  /** `text` is `parts` rejoined at the `AND` matches `seps`. */
  predicate AndSplit(text: string, parts: seq<string>, seps: seq<string>) {
    |parts| == |seps| + 1 && (forall k :: 0 <= k < |seps| ==> IsAndWord(seps[k])) && Interleave(parts, seps) == text
  }

  /**
   * A match of `AND` inside a piece is one in the whole text: the piece is
   * cut where the text begins or just after a match, and ends where the
   * text ends or just before one.
   */
  lemma PieceAndLift(w: string, a: nat, x: string, j: nat)
    requires a + |x| <= |w| && w[a..a + |x|] == x
    requires a == 0 || (3 <= a && AndAt(w, a - 3))
    requires a + |x| == |w| || AndAt(w, a + |x|)
    ensures AndAt(x, j) ==> AndAt(w, a + j)
  {
    if AndAt(x, j) {
      assert forall m :: 0 <= m < 3 ==> w[a + j..][m] == x[j..][m];
      assert j > 0 ==> w[a + j - 1] == x[j - 1];
      assert j + 3 < |x| ==> w[a + j + 3] == x[j + 3];
    }
  }

  /** A match of `AND` in a stripped text is one in the text before stripping. */
  lemma StripAndLift(p: string, o: nat, x: string, j: nat)
    requires BlanksAround(p, o, x)
    ensures AndAt(x, j) ==> AndAt(p, o + j)
  {
    if AndAt(x, j) {
      assert forall m :: 0 <= m < 3 ==> p[o + j..][m] == x[j..][m];
      assert j > 0 ==> p[o + j - 1] == x[j - 1];
      assert j + 3 < |x| ==> p[o + j + 3] == x[j + 3];
    }
  }

  /** No match of `\bAND\b` in `x`. */
  predicate NoAnd(x: string) {
    forall j :: 0 <= j < |x| ==> !AndAt(x, j)
  }

  /** A piece cut at matches, or at the ends of the text, with no match inside it in the text holds none of its own. */
  lemma PieceNoAnd(w: string, a: nat, b: nat)
    requires a <= b <= |w|
    requires a == 0 || (3 <= a && AndAt(w, a - 3))
    requires b == |w| || AndAt(w, b)
    requires forall j :: a <= j < b ==> !AndAt(w, j)
    ensures NoAnd(w[a..b])
  {
    var x := w[a..b];
    forall j | 0 <= j < |x| ensures !AndAt(x, j) {
      PieceAndLift(w, a, x, j);
    }
  }

  /** A piece cut before the match at `i`, then the split of what follows the match. */
  lemma AndSplitCons(w: string, start: nat, i: nat, rest: seq<string>, seps: seq<string>)
    requires start <= i && AndAt(w, i) && AndSplit(w[i + 3..], rest, seps)
    ensures AndSplit(w[start..], [w[start..i]] + rest, [w[i..i + 3]] + seps)
  {
    var x := w[start..i];
    assert ([x] + rest)[1..] == rest;
    assert ([w[i..i + 3]] + seps)[1..] == seps;
    assert w[i..] == w[i..i + 3] + w[i + 3..];
    assert w[start..] == x + w[i..];
  }

  /** The piece cut at a match, followed by pieces free of matches. */
  lemma NoAndAtMatch(w: string, start: nat, i: nat, rest: seq<string>)
    requires start <= i < |w| && AndAt(w, i)
    requires start == 0 || (3 <= start && AndAt(w, start - 3))
    requires forall j :: start <= j < i ==> !AndAt(w, j)
    requires rest == SplitAndFrom(w, i + 3, i + 3) && forall y :: y in rest ==> NoAnd(y)
    ensures forall y :: y in SplitAndFrom(w, start, i) ==> NoAnd(y)
  {
    PieceNoAnd(w, start, i);
    assert SplitAndFrom(w, start, i) == [w[start..i]] + rest;
  }

  /**
   * `re.split(r"\bAND\b", w)` keeps no match inside a piece. The scan
   * resumed at `i` after a piece that began at `start`, with no match in
   * between.
   */
  lemma {:induction false} SplitAndFromNoAnd(w: string, start: nat, i: nat)
    requires start <= i <= |w|
    requires start == 0 || (3 <= start && AndAt(w, start - 3))
    requires forall j :: start <= j < i ==> !AndAt(w, j)
    ensures forall y :: y in SplitAndFrom(w, start, i) ==> NoAnd(y)
    decreases |w| - i
  {
    if i == |w| {
      PieceNoAnd(w, start, i);
      assert w[start..i] == w[start..];
    } else if AndAt(w, i) {
      SplitAndFromNoAnd(w, i + 3, i + 3);
      NoAndAtMatch(w, start, i, SplitAndFrom(w, i + 3, i + 3));
    } else {
      SplitAndFromNoAnd(w, start, i + 1);
      assert SplitAndFrom(w, start, i) == SplitAndFrom(w, start, i + 1);
    }
  }

  /** The pieces of `re.split(r"\bAND\b", w)` rejoined at the matches give back the text. */
  lemma {:induction false} SplitAndFromRebuilds(w: string, start: nat, i: nat)
    requires start <= i <= |w|
    ensures exists seps :: AndSplit(w[start..], SplitAndFrom(w, start, i), seps)
    decreases |w| - i
  {
    var r := SplitAndFrom(w, start, i);
    if i == |w| {
      assert r == [w[start..]];
      assert AndSplit(w[start..], r, []);
    } else if AndAt(w, i) {
      SplitAndFromRebuilds(w, i + 3, i + 3);
      var rest := SplitAndFrom(w, i + 3, i + 3);
      var seps :| AndSplit(w[i + 3..], rest, seps);
      AndSplitCons(w, start, i, rest, seps);
      assert r == [w[start..i]] + rest;
    } else {
      SplitAndFromRebuilds(w, start, i + 1);
    }
  }

  /**
   * The conjuncts are the stripped pieces of the WHERE text cut at its
   * `AND` matches, and none of them holds a match of `AND`.
   */
  lemma ConjunctsSplitAtAnd(w: string)
    ensures var r := Conjuncts(w);
      exists parts, seps :: AndSplit(w, parts, seps) && |parts| == |r| && forall k :: 0 <= k < |r| ==> r[k] == Strip(parts[k])
    ensures var r := Conjuncts(w);
      forall k, j :: 0 <= k < |r| ==> !AndAt(r[k], j)
  {
    SplitAndFromNoAnd(w, 0, 0);
    SplitAndFromRebuilds(w, 0, 0);
    var parts := SplitAndFrom(w, 0, 0);
    var r := Conjuncts(w);
    var seps :| AndSplit(w[0..], parts, seps);
    assert w[0..] == w;
    forall k, j | 0 <= k < |r| ensures !AndAt(r[k], j) {
      assert parts[k] in parts;
      var o :| BlanksAround(parts[k], o, r[k]);
      StripAndLift(parts[k], o, r[k], j);
    }
  }

  // ---------------------------------------------------------------------
  // The conjunct pattern of the generator that accepts `=` and `IN`:
  //   ([a-zA-Z0-9_]+)\s*(=|>|<|>=|<=|<>|!=|like|in|not in|between|is null|is not null)\s*(.*)
  // ---------------------------------------------------------------------

  /** The operators of the alternation, in the order it lists them. */
  datatype Op = Eq | Gt | Lt | Ge | Le | LtGt | Ne | Like | In | NotIn | Between | IsNull | IsNotNull

  /** The alternation as written, each operator with its (lower-case) text. */
  const Operators: seq<(Op, string)> := [
    (Eq, "="), (Gt, ">"), (Lt, "<"), (Ge, ">="), (Le, "<="), (LtGt, "<>"), (Ne, "!="),
    (Like, "like"), (In, "in"), (NotIn, "not in"), (Between, "between"),
    (IsNull, "is null"), (IsNotNull, "is not null")]

  /** Alternative `j` matches at `p` and yields `op`. */
  predicate Picks(s: string, p: nat, j: nat, op: (Op, nat))
    requires p <= |s| && j < |Operators|
  {
    Operators[j].0 == op.0 && |Operators[j].1| == op.1 && StartsWithCI(s[p..], Operators[j].1)
  }

  /** The first alternative from index `k` on whose text starts `s[p..]`, ignoring case. */
  function OperatorFrom(s: string, p: nat, k: nat): (r: Option<(Op, nat)>)
    requires p <= |s| && k <= |Operators|
    ensures r.Some? ==> r.value.1 > 0 && p + r.value.1 <= |s|
    ensures r.Some? ==> exists j :: k <= j < |Operators| && Picks(s, p, j, r.value)
    ensures r.None? ==> forall j :: k <= j < |Operators| ==> !StartsWithCI(s[p..], Operators[j].1)
    decreases |Operators| - k
  {
    if k == |Operators| then None
    else if StartsWithCI(s[p..], Operators[k].1) then
      var r := (Operators[k].0, |Operators[k].1|);
      assert Picks(s, p, k, r);
      Some(r)
    else OperatorFrom(s, p, k + 1)
  }

  /** The operator the alternation picks at `p`, with the length of its text. */
  function OperatorAt(s: string, p: nat): (r: Option<(Op, nat)>)
    requires p <= |s|
    ensures r.Some? ==> r.value.1 > 0 && p + r.value.1 <= |s|
  {
    OperatorFrom(s, p, 0)
  }

  /** No alternative from `k` on starts `s[p..]`: the alternation fails from `k`. */
  lemma {:induction false} OperatorFromNone(s: string, p: nat, k: nat)
    requires p <= |s| && k <= |Operators|
    requires forall j :: k <= j < |Operators| ==> !StartsWithCI(s[p..], Operators[j].1)
    ensures OperatorFrom(s, p, k).None?
    decreases |Operators| - k
  {
    if k < |Operators| {
      OperatorFromNone(s, p, k + 1);
    }
  }

  /** Alternative `j` starts `s[p..]` and none from `k` before it does: the alternation picks `j`. */
  lemma {:induction false} OperatorFromFirst(s: string, p: nat, k: nat, j: nat)
    requires p <= |s| && k <= j < |Operators|
    requires forall i :: k <= i < j ==> !StartsWithCI(s[p..], Operators[i].1)
    requires StartsWithCI(s[p..], Operators[j].1)
    ensures OperatorFrom(s, p, k) == Some((Operators[j].0, |Operators[j].1|))
    decreases j - k
  {
    if k < j {
      OperatorFromSkips(s, p, k);
      OperatorFromFirst(s, p, k + 1, j);
    }
  }

  /** An alternative that does not start `s[p..]` is passed over. */
  lemma OperatorFromSkips(s: string, p: nat, k: nat)
    requires p <= |s| && k < |Operators| && !StartsWithCI(s[p..], Operators[k].1)
    ensures OperatorFrom(s, p, k) == OperatorFrom(s, p, k + 1)
  {
  }

  /** The three groups of a conjunct match: column, operator (lower-cased) and stripped value. */
  datatype CondMatch = CondMatch(column: string, op: Op, value: string)

  /** The end of the run of word characters that starts at `i` (greedy `[a-zA-Z0-9_]+`). */
  function SkipWord(s: string, i: nat): (j: nat)
    requires i <= |s|
    ensures i <= j <= |s| && (j < |s| ==> !IsWordChar(s[j]))
    ensures forall k :: i <= k < j ==> IsWordChar(s[k])
    decreases |s| - i
  {
    if i < |s| && IsWordChar(s[i]) then SkipWord(s, i + 1) else i
  }

  /** The match with an operator found at `p`, the column being `c[..k]`. */
  function MatchWith(c: string, k: nat, p: nat, op: (Op, nat)): (r: CondMatch)
    requires Statements.OneLine(c) && k <= p && p + op.1 <= |c|
    ensures r.column == c[..k] && r.op == op.0
  {
    CondMatch(c[..k], op.0, Strip(c[Statements.SkipSpace(c, p + op.1)..]))
  }

  /**
   * The backtracking into the column: with the column cut to `c[..k]`,
   * the next character is a word character, `\s*` matches nothing and the
   * operator must start right there.
   */
  function ShorterColumn(c: string, k: nat): (r: Option<CondMatch>)
    requires Statements.OneLine(c) && k < |c|
    ensures r.Some? ==> 0 < |r.value.column| <= k && r.value.column == c[..|r.value.column|]
    decreases k
  {
    if k == 0 then None
    else match OperatorAt(c, k)
      case Some(op) => Some(MatchWith(c, k, k, op))
      case None => ShorterColumn(c, k - 1)
  }

  /**
   * `re.match` of the conjunct pattern, ignoring case. The column first
   * takes the whole run of word characters and the alternatives are tried
   * in the order written, so `>` wins over `>=`; when no operator follows,
   * the column gives back characters one by one (`login` reads as `log`
   * followed by `in`).
   */
  function MatchCondition(c: string): (r: Option<CondMatch>)
    requires Statements.OneLine(c)
    ensures r.Some? ==> r.value.column != [] && |r.value.column| <= |c| && r.value.column == c[..|r.value.column|]
    ensures r.Some? ==> forall k :: 0 <= k < |r.value.column| ==> IsWordChar(r.value.column[k])
  {
    var e := SkipWord(c, 0);
    if e == 0 then None
    else
      var p := Statements.SkipSpace(c, e);
      var r := match OperatorAt(c, p)
        case Some(op) => Some(MatchWith(c, e, p, op))
        case None => ShorterColumn(c, e - 1);
      if r.Some? then
        WordPrefix(c, e, |r.value.column|);
        r
      else r
  }

  /** A prefix of a run of word characters is made of word characters. */
  lemma WordPrefix(c: string, e: nat, n: nat)
    requires n <= e <= |c| && forall k :: 0 <= k < e ==> IsWordChar(c[k])
    ensures forall k :: 0 <= k < n ==> IsWordChar(c[..n][k])
  {
  }

  /** The text inside the parentheses of an `IN` value: `val.lstrip("(").rstrip(")")`. */
  function InListBody(v: string): (r: string)
    ensures |r| <= |v|
  {
    RStripChar(LStripChar(v, '('), ')')
  }

  /** `parts` are the pieces of `text` between its commas: comma-free, and rejoined with `,` they give `text`. */
  predicate CommaPieces(text: string, parts: seq<string>) {
    Join([','], parts) == text && forall k :: 0 <= k < |parts| ==> ',' !in parts[k]
  }

  /**
   * `IN` list values: the text inside the parentheses cut at every `,`,
   * each piece stripped. Every item is free of commas and of surrounding
   * blanks.
   */
  function InItems(v: string): (r: seq<string>)
    ensures |r| > 0
    ensures forall k :: 0 <= k < |r| ==> ',' !in r[k] && Unpadded(r[k])
  {
    var parts := SplitChar(InListBody(v), ',');
    StripAllFacts(parts, ',');
    StripAll(parts)
  }

  /** The items are the comma pieces of the text inside the parentheses, each stripped. */
  lemma InItemsArePieces(v: string)
    ensures var r := InItems(v);
      exists parts :: CommaPieces(InListBody(v), parts) && |parts| == |r| && forall k :: 0 <= k < |r| ==> r[k] == Strip(parts[k])
  {
    var parts := SplitChar(InListBody(v), ',');
    assert CommaPieces(InListBody(v), parts);
  }

  /** The result of analysing one statement's conjuncts: the `columnas` and `valores` lists and the `todas_simples` flag. */
  datatype Analysis = Analysis(columns: seq<string>, values: seq<string>, simple: bool)

  /** The conjunct pattern matched against each conjunct, in order. */
  function MatchAll(conds: seq<string>): (r: seq<Option<CondMatch>>)
    requires forall k :: 0 <= k < |conds| ==> Statements.OneLine(conds[k])
    ensures |r| == |conds|
    ensures forall k :: 0 <= k < |r| ==> r[k] == MatchCondition(conds[k])
  {
    if conds == [] then [] else [MatchCondition(conds[0])] + MatchAll(conds[1..])
  }

  /** `n` copies of `x`. */
  function Repeat(x: string, n: nat): (r: seq<string>)
    ensures |r| == n && forall k :: 0 <= k < n ==> r[k] == x
  {
    if n == 0 then [] else Repeat(x, n - 1) + [x]
  }

  /** A conjunct the first generator can group: it matched, with operator `=` or `in`. */
  predicate Groupable(m: Option<CondMatch>) {
    m.Some? && (m.value.op == Eq || m.value.op == In)
  }

  /** What one conjunct adds to the lists: its value for `=`, one pair per item for `in`, nothing otherwise. */
  function Pairs(m: Option<CondMatch>): (r: (seq<string>, seq<string>))
    ensures |r.0| == |r.1|
    ensures Groupable(m) ==> |r.0| > 0
    ensures forall k :: 0 <= k < |r.0| ==> m.Some? && r.0[k] == m.value.column
  {
    match m
    case Some(c) =>
      if c.op == Eq then ([c.column], [c.value])
      else if c.op == In then
        var items := InItems(c.value);
        (Repeat(c.column, |items|), items)
      else ([], [])
    case None => ([], [])
  }

  /** The first generator's per-statement loop over the matched conjuncts, as a function of those seen so far. */
  function AnalyseV2(ms: seq<Option<CondMatch>>): (r: Analysis)
    ensures |r.columns| == |r.values|
  {
    if ms == [] then Analysis([], [], true)
    else
      var a := AnalyseV2(ms[..|ms| - 1]);
      var pairs := Pairs(ms[|ms| - 1]);
      Analysis(a.columns + pairs.0, a.values + pairs.1, a.simple && Groupable(ms[|ms| - 1]))
  }

  /** A flag that holds for all but the last conjunct, and-ed with the last one, holds for all of them. */
  lemma AllGroupableLast(ms: seq<Option<CondMatch>>, init: seq<Option<CondMatch>>, before: bool, after: bool)
    requires ms != [] && init == ms[..|ms| - 1]
    requires before <==> forall k :: 0 <= k < |init| ==> Groupable(init[k])
    requires after == (before && Groupable(ms[|ms| - 1]))
    ensures after <==> forall k :: 0 <= k < |ms| ==> Groupable(ms[k])
  {
    var n := |ms| - 1;
    if after {
      forall k | 0 <= k < |ms| ensures Groupable(ms[k]) {
        if k < n {
          assert init[k] == ms[k];
        }
      }
    } else if Groupable(ms[n]) {
      var k :| 0 <= k < n && !Groupable(init[k]);
      assert ms[k] == init[k];
    }
  }

  /** All or nothing: the statement is simple exactly when every conjunct is groupable. */
  lemma {:induction false} AnalyseV2Simple(ms: seq<Option<CondMatch>>)
    ensures AnalyseV2(ms).simple <==> forall k :: 0 <= k < |ms| ==> Groupable(ms[k])
  {
    if ms != [] {
      var n := |ms| - 1;
      AnalyseV2Simple(ms[..n]);
      AllGroupableLast(ms, ms[..n], AnalyseV2(ms[..n]).simple, AnalyseV2(ms).simple);
    }
  }

  /** One more matched conjunct adds its pairs and may clear the flag. */
  lemma AnalyseV2Step(ms: seq<Option<CondMatch>>, i: nat)
    requires i < |ms|
    ensures var a := AnalyseV2(ms[..i]); var p := Pairs(ms[i]);
      AnalyseV2(ms[..i + 1]) == Analysis(a.columns + p.0, a.values + p.1, a.simple && Groupable(ms[i]))
  {
    assert ms[..i + 1][..i] == ms[..i] && ms[..i + 1][i] == ms[i];
  }

  /** `x` is the column of one of the matched conjuncts. */
  predicate ColumnOf(ms: seq<Option<CondMatch>>, x: string) {
    exists j :: 0 <= j < |ms| && ms[j].Some? && ms[j].value.column == x
  }

  /** Every column recorded is the column of one of the matched conjuncts. */
  lemma {:induction false} AnalyseV2Columns(ms: seq<Option<CondMatch>>)
    ensures forall k :: 0 <= k < |AnalyseV2(ms).columns| ==> ColumnOf(ms, AnalyseV2(ms).columns[k])
  {
    if ms != [] {
      var init := ms[..|ms| - 1];
      AnalyseV2Columns(init);
      var before := AnalyseV2(init).columns;
      var added := Pairs(ms[|ms| - 1]).0;
      var cols := AnalyseV2(ms).columns;
      assert cols == before + added;
      forall k | 0 <= k < |cols| ensures ColumnOf(ms, cols[k]) {
        if k < |before| {
          assert ColumnOf(init, before[k]);
          var j :| 0 <= j < |init| && init[j].Some? && init[j].value.column == before[k];
          assert ms[j] == init[j];
        } else {
          assert cols[k] == added[k - |before|];
          assert ms[|ms| - 1].Some? && ms[|ms| - 1].value.column == cols[k];
        }
      }
    } else {
      assert AnalyseV2(ms).columns == [];
    }
  }

  /** A simple statement with at least one conjunct always yields at least one column. */
  lemma {:induction false} AnalyseV2NonEmpty(ms: seq<Option<CondMatch>>)
    requires ms != [] && AnalyseV2(ms).simple
    ensures AnalyseV2(ms).columns != []
  {
    AnalyseV2Simple(ms);
    assert Groupable(ms[|ms| - 1]);
  }

  /**
   * A statement with at least one conjunct is grouped (flag still set and
   * at least one column) exactly when every conjunct is groupable.
   */
  lemma GroupedIffAllGroupable(ms: seq<Option<CondMatch>>)
    requires ms != []
    ensures var a := AnalyseV2(ms);
      (a.simple && a.columns != []) <==> forall k :: 0 <= k < |ms| ==> Groupable(ms[k])
  {
    AnalyseV2Simple(ms);
    if AnalyseV2(ms).simple {
      AnalyseV2NonEmpty(ms);
    }
  }

  /** An `IN` conjunct adds every item of its list, in order, each under its column. */
  lemma InConjunctFlattens(ms: seq<Option<CondMatch>>, m: CondMatch)
    requires m.op == In
    ensures var a := AnalyseV2(ms); var items := InItems(m.value);
      AnalyseV2(ms + [Some(m)]).values == a.values + items
      && |AnalyseV2(ms + [Some(m)]).columns| == |a.columns| + |items|
      && forall k :: |a.columns| <= k < |a.columns| + |items| ==> AnalyseV2(ms + [Some(m)]).columns[k] == m.column
  {
    var all := ms + [Some(m)];
    assert all[..|all| - 1] == ms;
    assert all[|all| - 1] == Some(m);
    var p := Pairs(Some(m));
    assert p.1 == InItems(m.value);
    assert AnalyseV2(all).values == AnalyseV2(ms).values + p.1;
    assert AnalyseV2(all).columns == AnalyseV2(ms).columns + p.0;
  }

  /** An `=` conjunct adds exactly its column and its value, and keeps the flag. */
  lemma EqConjunctAppends(ms: seq<Option<CondMatch>>, m: CondMatch)
    requires m.op == Eq
    ensures var a := AnalyseV2(ms);
      AnalyseV2(ms + [Some(m)]) == Analysis(a.columns + [m.column], a.values + [m.value], a.simple)
  {
    var all := ms + [Some(m)];
    assert all[..|all| - 1] == ms;
  }

  /** A conjunct that is neither `=` nor `IN`, or does not match, adds nothing and clears the flag. */
  lemma OtherConjunctClears(ms: seq<Option<CondMatch>>, m: Option<CondMatch>)
    requires !Groupable(m)
    ensures var a := AnalyseV2(ms);
      AnalyseV2(ms + [m]) == Analysis(a.columns, a.values, false)
  {
    var all := ms + [m];
    assert all[..|all| - 1] == ms;
  }

  /** The inner loop over the items of an `IN` list: one column and one value per item. */
  method AppendItems(column: string, items: seq<string>, columns0: seq<string>, values0: seq<string>)
    returns (columns: seq<string>, values: seq<string>)
    ensures columns == columns0 + Repeat(column, |items|) && values == values0 + items
  {
    columns, values := columns0, values0;
    var j := 0;
    while j < |items|
      invariant 0 <= j <= |items|
      invariant columns == columns0 + Repeat(column, j) && values == values0 + items[..j]
    {
      columns := columns + [column];
      values := values + [items[j]];
      j := j + 1;
    }
    assert items[..j] == items;
  }

  /**
   * The body of the first generator's conjunct loop for one matched
   * conjunct: append its pairs, expanding an `IN` list item by item, or
   * clear the flag.
   */
  method AddConjunct(m: Option<CondMatch>, columns0: seq<string>, values0: seq<string>, simple0: bool)
    returns (columns: seq<string>, values: seq<string>, simple: bool)
    ensures columns == columns0 + Pairs(m).0 && values == values0 + Pairs(m).1
    ensures simple == (simple0 && Groupable(m))
  {
    columns, values, simple := columns0, values0, simple0;
    match m {
      case Some(c) =>
        if c.op == Eq {
          columns := columns + [c.column];
          values := values + [c.value];
        } else if c.op == In {
          columns, values := AppendItems(c.column, InItems(c.value), columns, values);
        } else {
          simple := false;
        }
      case None =>
        simple := false;
    }
  }

  /**
   * The first generator's loop at lines 53-82: match each conjunct and
   * add what it contributes to the column and value lists.
   */
  method AnalyseConditionsV2(conds: seq<string>) returns (columns: seq<string>, values: seq<string>, simple: bool)
    requires forall k :: 0 <= k < |conds| ==> Statements.OneLine(conds[k])
    ensures Analysis(columns, values, simple) == AnalyseV2(MatchAll(conds))
    ensures simple <==> forall k :: 0 <= k < |conds| ==> Groupable(MatchCondition(conds[k]))
  {
    ghost var ms := MatchAll(conds);
    columns, values, simple := [], [], true;
    var i := 0;
    while i < |conds|
      invariant 0 <= i <= |conds|
      invariant Analysis(columns, values, simple) == AnalyseV2(ms[..i])
    {
      AnalyseV2Step(ms, i);
      var m := MatchCondition(conds[i]);
      assert m == ms[i];
      columns, values, simple := AddConjunct(m, columns, values, simple);
      i := i + 1;
    }
    assert ms[..i] == ms;
    AnalyseV2Simple(ms);
  }

  // ---------------------------------------------------------------------
  // The conjunct pattern of the generator that accepts only equalities:
  //   ([a-zA-Z0-9_]+)\s*=\s*('[^']*'|[0-9]+)
  // ---------------------------------------------------------------------

  /** A single-quoted literal with no quote inside. */
  predicate IsQuoted(v: string) {
    |v| >= 2 && v[0] == '\'' && v[|v| - 1] == '\'' && '\'' !in v[1..|v| - 1]
  }

  /** A non-empty run of decimal digits. */
  predicate IsDigits(v: string) {
    |v| > 0 && forall k :: 0 <= k < |v| ==> IsDigit(v[k])
  }

  /** The end of the run of digits that starts at `i` (greedy `[0-9]+`). */
  function SkipDigits(s: string, i: nat): (j: nat)
    requires i <= |s|
    ensures i <= j <= |s| && (j < |s| ==> !IsDigit(s[j]))
    ensures forall k :: i <= k < j ==> IsDigit(s[k])
    decreases |s| - i
  {
    if i < |s| && IsDigit(s[i]) then SkipDigits(s, i + 1) else i
  }

  /**
   * The group `('[^']*'|[0-9]+)` at `q`: a quote up to the next quote, or
   * else the whole run of digits.
   */
  function LiteralAt(c: string, q: nat): (r: Option<string>)
    requires q <= |c|
    ensures r.Some? ==> IsQuoted(r.value) || IsDigits(r.value)
    ensures r.Some? ==> q + |r.value| <= |c| && r.value == c[q..q + |r.value|]
    ensures r.Some? && IsDigits(r.value) ==> q + |r.value| == |c| || !IsDigit(c[q + |r.value|])
    ensures r.None? <==> !(q < |c| && ((c[q] == '\'' && '\'' in c[q + 1..]) || IsDigit(c[q])))
  {
    if q < |c| && c[q] == '\'' && '\'' in c[q + 1..] then
      var close := q + 1 + FirstIndex(c[q + 1..], '\'');
      var inner := c[q + 1..close];
      assert inner == c[q + 1..][..close - q - 1];
      assert c[q..close + 1] == [c[q]] + inner + [c[close]];
      var v := ['\''] + inner + ['\''];
      assert v[1..|v| - 1] == inner;
      Some(v)
    else if q < |c| && IsDigit(c[q]) then
      var d := SkipDigits(c, q);
      var v := c[q..d];
      assert forall k :: 0 <= k < |v| ==> v[k] == c[q + k];
      Some(v)
    else None
  }

  /**
   * `c` opens with `([a-zA-Z0-9_]+)\s*=\s*` ending at `q`: the column
   * `c[..n]`, blanks, `=` at `p`, then blanks up to `q`.
   */
  predicate EqualityPrefix(c: string, n: nat, p: nat, q: nat) {
    0 < n <= p < q <= |c| && (forall k :: 0 <= k < n ==> IsWordChar(c[k]))
    && (forall k :: n <= k < p ==> IsSpace(c[k])) && c[p] == '='
    && (forall k :: p < k < q ==> IsSpace(c[k]))
  }

  /**
   * `re.match` of the equality pattern: a column, `=`, and a quoted or
   * digit literal. Only a prefix has to match, so whatever follows the
   * literal is ignored (`5.5` yields `5`).
   */
  function MatchSimple(c: string): (r: Option<(string, string)>)
    ensures r.Some? ==> r.value.0 != [] && forall k :: 0 <= k < |r.value.0| ==> IsWordChar(r.value.0[k])
    ensures r.Some? ==> |r.value.0| <= |c| && r.value.0 == c[..|r.value.0|]
    ensures r.Some? ==> IsQuoted(r.value.1) || IsDigits(r.value.1)
  {
    var e := SkipWord(c, 0);
    var p := Statements.SkipSpace(c, e);
    if e == 0 || p == |c| || c[p] != '=' then None
    else
      match LiteralAt(c, Statements.SkipSpace(c, p + 1))
      case Some(v) => Some((c[..e], v))
      case None => None
  }

  /** A match is the literal found after the column, blanks, `=` and blanks. */
  lemma MatchSimpleReads(c: string)
    ensures var r := MatchSimple(c);
      r.Some? ==> exists p: nat, q: nat :: EqualityPrefix(c, |r.value.0|, p, q) && LiteralAt(c, q) == Some(r.value.1)
  {
    var e := SkipWord(c, 0);
    var p := Statements.SkipSpace(c, e);
    if !(e == 0 || p == |c| || c[p] != '=') {
      assert EqualityPrefix(c, e, p, Statements.SkipSpace(c, p + 1));
    }
  }

  /** No match means that no column, blanks, `=` and blanks are followed by a literal. */
  lemma MatchSimpleFails(c: string)
    ensures MatchSimple(c).None? ==> forall n: nat, p: nat, q: nat :: EqualityPrefix(c, n, p, q) ==> LiteralAt(c, q).None?
  {
    AllEqualityPrefixes(c);
  }

  /**
   * The column and the `=` of an equality prefix are forced, and so is the
   * end of the blanks after `=`: stopping earlier leaves a blank where the
   * literal should start.
   */
  lemma NoOtherEquality(c: string, n: nat, p: nat, q: nat)
    requires EqualityPrefix(c, n, p, q)
    ensures n == SkipWord(c, 0) && p == Statements.SkipSpace(c, n)
    ensures q != Statements.SkipSpace(c, p + 1) ==> LiteralAt(c, q).None?
  {
    SkipWordOver(c, 0, n);
    Statements.SkipSpaceOver(c, n, p);
    var f := Statements.SkipSpace(c, p + 1);
    if q != f {
      assert q < f && IsSpace(c[q]);
    }
  }

  lemma AllEqualityPrefixes(c: string)
    ensures forall n: nat, p: nat, q: nat :: EqualityPrefix(c, n, p, q) ==>
      n == SkipWord(c, 0) && p == Statements.SkipSpace(c, n)
      && (q != Statements.SkipSpace(c, p + 1) ==> LiteralAt(c, q).None?)
  {
    forall n: nat, p: nat, q: nat | EqualityPrefix(c, n, p, q)
      ensures n == SkipWord(c, 0) && p == Statements.SkipSpace(c, n)
      && (q != Statements.SkipSpace(c, p + 1) ==> LiteralAt(c, q).None?)
    {
      NoOtherEquality(c, n, p, q);
    }
  }

  /** The second generator's loop over the conjuncts, which stops at the first one that does not match. */
  function AnalyseV3(conds: seq<string>): (r: Analysis)
    ensures |r.columns| == |r.values|
    ensures forall k :: 0 <= k < |r.values| ==> IsQuoted(r.values[k]) || IsDigits(r.values[k])
    ensures r.simple ==> |r.columns| == |conds|
  {
    if conds == [] then Analysis([], [], true)
    else
      var init := conds[..|conds| - 1];
      var a := AnalyseV3(init);
      if !a.simple then a
      else match MatchSimple(conds[|conds| - 1])
        case Some(m) => Analysis(a.columns + [m.0], a.values + [m.1], true)
        case None => Analysis(a.columns, a.values, false)
  }

  /**
   * The pairs recorded are those of the conjuncts read before the first
   * that does not match, each exactly the column and literal the equality
   * pattern reads from its conjunct; when one does not match, it is the
   * one right after them.
   */
  lemma {:induction false} AnalyseV3Pairs(conds: seq<string>)
    ensures PairsRead(conds, AnalyseV3(conds))
  {
    if conds != [] {
      var init := conds[..|conds| - 1];
      AnalyseV3Pairs(init);
      PairsReadStep(conds, init);
    }
  }

  /**
   * The pairs of `a` are read from the first conjuncts of `conds`, one
   * each; when `a` is not simple, the conjunct right after them fails the
   * equality pattern.
   */
  predicate PairsRead(conds: seq<string>, a: Analysis) {
    |a.columns| <= |conds| && |a.values| == |a.columns|
    && (forall k :: 0 <= k < |a.columns| ==> MatchSimple(conds[k]) == Some((a.columns[k], a.values[k])))
    && (!a.simple ==> |a.columns| < |conds| && MatchSimple(conds[|a.columns|]).None?)
  }

  lemma PairsReadStep(conds: seq<string>, init: seq<string>)
    requires conds != [] && init == conds[..|conds| - 1]
    requires PairsRead(init, AnalyseV3(init))
    ensures PairsRead(conds, AnalyseV3(conds))
  {
    var a0 := AnalyseV3(init);
    PairsReadGrow(conds, init, a0);
    if a0.simple {
      match MatchSimple(conds[|conds| - 1])
      case Some(m) =>
        PairsReadAppend(conds, a0, m);
      case None =>
    }
  }

  /** Reading more conjuncts keeps the pairs already read. */
  lemma PairsReadGrow(conds: seq<string>, init: seq<string>, a: Analysis)
    requires conds != [] && init == conds[..|conds| - 1] && PairsRead(init, a)
    ensures a.simple && |a.columns| == |init| && MatchSimple(conds[|init|]).None? ==> PairsRead(conds, a.(simple := false))
    ensures !a.simple ==> PairsRead(conds, a)
    ensures forall k :: 0 <= k < |a.columns| ==> MatchSimple(conds[k]) == Some((a.columns[k], a.values[k]))
  {
    assert forall k :: 0 <= k < |init| ==> conds[k] == init[k];
  }

  /** A conjunct that matches adds its pair at the end. */
  lemma PairsReadAppend(conds: seq<string>, a: Analysis, m: (string, string))
    requires |a.columns| == |a.values| == |conds| - 1
    requires forall k :: 0 <= k < |a.columns| ==> MatchSimple(conds[k]) == Some((a.columns[k], a.values[k]))
    requires MatchSimple(conds[|conds| - 1]) == Some(m)
    ensures PairsRead(conds, Analysis(a.columns + [m.0], a.values + [m.1], true))
  {
  }

  /** A flag that holds for all but the last conjunct, and-ed with the last one, holds for all of them. */
  lemma AllMatchLast(conds: seq<string>, init: seq<string>, before: bool, after: bool)
    requires conds != [] && init == conds[..|conds| - 1]
    requires before <==> forall k :: 0 <= k < |init| ==> MatchSimple(init[k]).Some?
    requires after == (before && MatchSimple(conds[|conds| - 1]).Some?)
    ensures after <==> forall k :: 0 <= k < |conds| ==> MatchSimple(conds[k]).Some?
  {
    var n := |conds| - 1;
    if after {
      forall k | 0 <= k < |conds| ensures MatchSimple(conds[k]).Some? {
        if k < n {
          assert init[k] == conds[k];
        }
      }
    } else if MatchSimple(conds[n]).Some? {
      var k :| 0 <= k < n && MatchSimple(init[k]).None?;
      assert conds[k] == init[k];
    }
  }

  /** All or nothing: the statement is simple exactly when every conjunct matches the equality pattern. */
  lemma {:induction false} AnalyseV3Simple(conds: seq<string>)
    ensures AnalyseV3(conds).simple <==> forall k :: 0 <= k < |conds| ==> MatchSimple(conds[k]).Some?
  {
    if conds != [] {
      var n := |conds| - 1;
      AnalyseV3Simple(conds[..n]);
      AllMatchLast(conds, conds[..n], AnalyseV3(conds[..n]).simple, AnalyseV3(conds).simple);
    }
  }

  /** Once a conjunct has failed, later conjuncts change nothing. */
  lemma {:induction false} AnalyseV3Stops(conds: seq<string>, i: nat)
    requires i <= |conds| && !AnalyseV3(conds[..i]).simple
    ensures AnalyseV3(conds) == AnalyseV3(conds[..i])
    decreases |conds| - i
  {
    if i < |conds| {
      AnalyseV3Stuck(conds, i);
      AnalyseV3Stops(conds, i + 1);
    } else {
      assert conds[..i] == conds;
    }
  }

  /** A statement already rejected stays rejected, unchanged, after one more conjunct. */
  lemma AnalyseV3Stuck(conds: seq<string>, i: nat)
    requires i < |conds| && !AnalyseV3(conds[..i]).simple
    ensures AnalyseV3(conds[..i + 1]) == AnalyseV3(conds[..i])
  {
    assert conds[..i + 1][..i] == conds[..i];
  }

  /**
   * The second generator's loop at lines 41-50: append the column and the
   * literal of each matching conjunct; at the first that does not match,
   * clear the flag and leave the loop.
   */
  method AnalyseConditionsV3(conds: seq<string>) returns (columns: seq<string>, values: seq<string>, simple: bool)
    ensures Analysis(columns, values, simple) == AnalyseV3(conds)
    ensures simple <==> forall k :: 0 <= k < |conds| ==> MatchSimple(conds[k]).Some?
  {
    columns, values, simple := [], [], true;
    var i := 0;
    while i < |conds|
      invariant 0 <= i <= |conds|
      invariant simple && Analysis(columns, values, simple) == AnalyseV3(conds[..i])
    {
      assert conds[..i + 1][..i] == conds[..i];
      match MatchSimple(conds[i]) {
        case Some(m) =>
          columns := columns + [m.0];
          values := values + [m.1];
        case None =>
          simple := false;
          AnalyseV3Stops(conds, i + 1);
          break;
      }
      i := i + 1;
    }
    if simple {
      assert conds[..i] == conds;
    }
    AnalyseV3Simple(conds);
  }

  // ---------------------------------------------------------------------
  // Behaviour of the two conjunct patterns on particular conjuncts.
  // ---------------------------------------------------------------------

  /** No alternative matches after `login` or after `logi`. */
  lemma NoOperatorAfterLogi()
    ensures OperatorAt("login", 5).None? && OperatorAt("login", 4).None?
  {
    var c := "login";
    assert forall j :: 0 <= j < |Operators| ==> |Operators[j].1| > 0;
    OperatorFromNone(c, 5, 0);
    assert forall j :: 0 <= j < |Operators| && |Operators[j].1| == 1 ==> Operators[j].1[0] != 'n';
    assert Lower(c[4..][0]) == 'n';
    OperatorFromNone(c, 4, 0);
  }

  /** After `log` the alternation finds `in`. */
  lemma InAfterLog()
    ensures OperatorAt("login", 3) == Some((In, 2))
  {
    var c := "login";
    assert Lower(c[3..][0]) == 'i' && Lower(c[3..][1]) == 'n';
    assert forall i :: 0 <= i < 8 ==> Operators[i].1[0] != 'i';
    OperatorFromFirst(c, 3, 0, 8);
  }

  /** With no operator after the whole word, the column gives back `in`: `login` is column `log`, operator `in`, empty value. */
  lemma LoginReadsAsIn()
    ensures MatchCondition("login") == Some(CondMatch("log", In, ""))
  {
    NoOperatorAfterLogi();
    InAfterLog();
    var c := "login";
    assert SkipWord(c, 0) == 5 && Statements.SkipSpace(c, 5) == 5;
    assert c[..3] == "log" && c[5..] == "";
  }

  /** The alternation stops at `<` in `a <= 5`, before it reaches `<=`. */
  lemma LessFoundFirst()
    ensures MatchCondition("a <= 5") == Some(MatchWith("a <= 5", 1, 2, (Lt, 1)))
  {
    var c := "a <= 5";
    assert SkipWord(c, 0) == 1 && Statements.SkipSpace(c, 1) == 2;
    assert Lower(c[2..][0]) == '<';
    OperatorFromFirst(c, 2, 0, 2);
  }

  /** `<` is listed before `<=`, so `a <= 5` has operator `<` and value `= 5`. */
  lemma LessEqualReadsAsLess()
    ensures MatchCondition("a <= 5") == Some(CondMatch("a", Lt, "= 5"))
  {
    LessFoundFirst();
    var c := "a <= 5";
    assert Statements.SkipSpace(c, 3) == 3 && c[3..] == "= 5" && c[..1] == "a";
  }

  /** Only a prefix of the conjunct has to match: `id = 5.5` records the literal `5`. */
  lemma DecimalKeepsIntegerPart()
    ensures MatchSimple("id = 5.5") == Some(("id", "5"))
  {
    var c := "id = 5.5";
    assert SkipWord(c, 0) == 2;
    assert Statements.SkipSpace(c, 2) == 3;
    assert Statements.SkipSpace(c, 4) == 5;
    assert SkipDigits(c, 5) == 6;
    assert c[5] != '\'' && IsDigit(c[5]);
    assert LiteralAt(c, 5) == Some(c[5..6]);
    assert c[5..6] == "5" && c[..2] == "id" && c[3] == '=';
    assert MatchSimple(c) == Some((c[..2], c[5..6]));
  }

  /** A quoted literal is recorded with its quotes. */
  lemma QuotedLiteralKept()
    ensures MatchSimple("name='x y'") == Some(("name", "'x y'"))
  {
    var c := "name='x y'";
    assert SkipWord(c, 0) == 4;
    assert Statements.SkipSpace(c, 4) == 4 && Statements.SkipSpace(c, 5) == 5;
    assert c[5..] == "'x y'" && c[..4] == "name" && c[4] == '=';
    QuotedAtEnd(c, 5);
  }

  // ---------------------------------------------------------------------
  // Both conjunct patterns read back the equalities they are written for.
  // ---------------------------------------------------------------------

  /** A column name: one or more word characters. */
  predicate IsColumnName(col: string) {
    col != [] && forall k :: 0 <= k < |col| ==> IsWordChar(col[k])
  }

  /** The column, the `=` and the start of the value on a text laid out as `<col> = <v>`. */
  lemma EqualityLayout(c: string, col: string, v: string)
    requires c == col + " = " + v && IsColumnName(col) && v != [] && !IsSpace(v[0])
    ensures var e := |col|;
      SkipWord(c, 0) == e && Statements.SkipSpace(c, e) == e + 1 && c[e + 1] == '='
      && Statements.SkipSpace(c, e + 2) == e + 3 && c[..e] == col && c[e + 3..] == v
  {
    var e := |col|;
    assert forall k :: 0 <= k < e ==> c[k] == col[k];
    assert c[e] == ' ' && c[e + 1] == '=' && c[e + 2] == ' ' && c[e + 3] == v[0];
    SkipWordOver(c, 0, e);
    assert Statements.SkipSpace(c, e + 1) == e + 1;
    assert Statements.SkipSpace(c, e + 3) == e + 3;
  }

  /** The run of word characters from `i` ends at `e` when `s[e]` is not one of them. */
  lemma {:induction false} SkipWordOver(s: string, i: nat, e: nat)
    requires i <= e <= |s|
    requires forall k :: i <= k < e ==> IsWordChar(s[k])
    requires e < |s| ==> !IsWordChar(s[e])
    ensures SkipWord(s, i) == e
    decreases e - i
  {
    if i < e {
      SkipWordOver(s, i + 1, e);
    }
  }

  /** The first generator reads `<col> = <v>` as an `=` on `col` with value `v` stripped. */
  lemma EqualityMatched(col: string, v: string)
    requires IsColumnName(col) && Statements.OneLine(v) && v != [] && !IsSpace(v[0])
    ensures var c := col + " = " + v;
      Statements.OneLine(c) && MatchCondition(c) == Some(CondMatch(col, Eq, Strip(v)))
  {
    var c := col + " = " + v;
    var e := |col|;
    assert '\n' !in col by { assert !IsWordChar('\n'); }
    EqualityLayout(c, col, v);
    assert StartsWithCI(c[e + 1..], "=");
    assert OperatorAt(c, e + 1) == Some((Eq, 1));
  }

  /** At an opening quote with a quote after it, the literal runs to the first such quote. */
  lemma QuotedAt(c: string, q: nat)
    requires q < |c| && c[q] == '\'' && '\'' in c[q + 1..]
    ensures LiteralAt(c, q) == Some(['\''] + c[q + 1..q + 1 + FirstIndex(c[q + 1..], '\'')] + ['\''])
  {
  }

  /** In a quoted literal the first quote after the opening one is the closing one. */
  lemma QuotedCloses(lit: string)
    requires IsQuoted(lit)
    ensures '\'' in lit[1..] && FirstIndex(lit[1..], '\'') == |lit| - 2
    ensures ['\''] + lit[1..|lit| - 1] + ['\''] == lit
  {
    var rest := lit[1..];
    assert rest[|lit| - 2] == '\'';
    assert rest[..|lit| - 2] == lit[1..|lit| - 1];
    FirstIndexIs(rest, '\'', |lit| - 2);
  }

  /** A quoted literal that runs to the end of the text is taken whole. */
  lemma QuotedAtEnd(c: string, q: nat)
    requires q <= |c| && IsQuoted(c[q..])
    ensures LiteralAt(c, q) == Some(c[q..])
  {
    var lit := c[q..];
    QuotedCloses(lit);
    assert c[q] == lit[0] && c[q + 1..] == lit[1..];
    QuotedAt(c, q);
    assert c[q + 1..q + 1 + (|lit| - 2)] == lit[1..|lit| - 1];
  }

  /** A run of digits that runs to the end of the text is taken whole. */
  lemma DigitsAtEnd(c: string, q: nat)
    requires q <= |c| && IsDigits(c[q..])
    ensures LiteralAt(c, q) == Some(c[q..])
  {
    assert c[q] == c[q..][0] && c[q] != '\'';
    assert forall k :: q <= k < |c| ==> c[k] == c[q..][k - q];
    SkipDigitsOver(c, q);
    assert c[q..SkipDigits(c, q)] == c[q..];
  }

  /** The second generator reads the literal of `<col> = <v>` where `v` starts. */
  lemma EqualityLiteral(col: string, v: string)
    requires IsColumnName(col) && v != [] && !IsSpace(v[0])
    ensures var c := col + " = " + v;
      MatchSimple(c) == if LiteralAt(c, |col| + 3).Some? then Some((col, LiteralAt(c, |col| + 3).value)) else None
  {
    EqualityLayout(col + " = " + v, col, v);
  }

  /** The second generator reads `<col> = <lit>`, for a quoted or digit literal, as exactly that pair. */
  lemma LiteralEqualityMatched(col: string, lit: string)
    requires IsColumnName(col) && (IsQuoted(lit) || IsDigits(lit))
    ensures MatchSimple(col + " = " + lit) == Some((col, lit))
  {
    var c := col + " = " + lit;
    var q := |col| + 3;
    assert !IsSpace(lit[0]);
    EqualityLiteral(col, lit);
    assert c[q..] == lit;
    if IsQuoted(lit) {
      QuotedAtEnd(c, q);
    } else {
      DigitsAtEnd(c, q);
    }
  }

  /** A run of digits to the end of the text is taken whole. */
  lemma {:induction false} SkipDigitsOver(s: string, i: nat)
    requires i <= |s| && forall k :: i <= k < |s| ==> IsDigit(s[k])
    ensures SkipDigits(s, i) == |s|
    decreases |s| - i
  {
    if i < |s| {
      SkipDigitsOver(s, i + 1);
    }
  }
}
