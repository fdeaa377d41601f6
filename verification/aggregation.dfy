/**
 * The state both generators build while they read the statements, and the
 * emission of the backup SELECTs from it. The two generators differ only
 * in the case of the keywords they write, which `Dialect` selects.
 */
module Aggregation {
  import opened Wrappers
  import opened Ascii

  /** Upper-case keywords (`SELECT * FROM … WHERE … IN (…) AND …`) or lower-case ones. */
  datatype Dialect = Upper | Lower

  function SelectFrom(d: Dialect): string {
    if d == Upper then "SELECT * FROM " else "select * from "
  }

  function WhereWord(d: Dialect): string {
    if d == Upper then " WHERE " else " where "
  }

  function InOpen(d: Dialect): string {
    if d == Upper then " IN (" else " in ("
  }

  function AndWord(d: Dialect): string {
    if d == Upper then " AND " else " and "
  }

  /** `SELECT * FROM <table> WHERE <where>;` in the dialect's case. */
  function SelectText(d: Dialect, table: string, where: string): (r: string)
    ensures |r| == |SelectFrom(d)| + |table| + |WhereWord(d)| + |where| + 1 && r[|r| - 1] == ';'
  {
    SelectFrom(d) + table + WhereWord(d) + where + ";"
  }

  /**
   * `r` reads back as the SELECT of `table` with the WHERE text `where`:
   * the opening keywords, the table, the WHERE keyword, the text and a
   * closing `;`, each where the lengths before it put it.
   */
  predicate ReadsAsSelect(d: Dialect, r: string, table: string, where: string) {
    var m := |SelectFrom(d)| + |table|;
    |r| == m + |WhereWord(d)| + |where| + 1
    && r[..|SelectFrom(d)|] == SelectFrom(d) && r[|SelectFrom(d)|..m] == table
    && r[m..m + |WhereWord(d)|] == WhereWord(d) && r[m + |WhereWord(d)|..|r| - 1] == where && r[|r| - 1] == ';'
  }

  /** The table and the WHERE text can be read back from a SELECT. */
  lemma SelectTextReads(d: Dialect, table: string, where: string)
    ensures ReadsAsSelect(d, SelectText(d, table, where), table, where)
  {
    FourParts(SelectFrom(d), table, WhereWord(d), where, ";");
  }

  /** The parts of `a + b + c + e + f`, read back by their lengths. */
  lemma FourParts(a: string, b: string, c: string, e: string, f: string)
    ensures var r := a + b + c + e + f;
      var m := |a| + |b|;
      r[..|a|] == a && r[|a|..m] == b && r[m..m + |c|] == c && r[m + |c|..|r| - |f|] == e
  {
    FirstPart(a, b, c, e, f);
    SecondPart(a, b, c, e, f);
    ThirdPart(a, b, c, e, f);
    FourthPart(a, b, c, e, f);
  }

  lemma FirstPart(a: string, b: string, c: string, e: string, f: string)
    ensures (a + b + c + e + f)[..|a|] == a
  {
  }

  lemma SecondPart(a: string, b: string, c: string, e: string, f: string)
    ensures (a + b + c + e + f)[|a|..|a| + |b|] == b
  {
  }

  lemma ThirdPart(a: string, b: string, c: string, e: string, f: string)
    ensures (a + b + c + e + f)[|a| + |b|..|a| + |b| + |c|] == c
  {
  }

  lemma FourthPart(a: string, b: string, c: string, e: string, f: string)
    ensures var r := a + b + c + e + f; r[|a| + |b| + |c|..|r| - |f|] == e
  {
  }

  /** Table name to column name to the set of values seen for it (`agrupados`). */
  type Groups = map<string, map<string, set<string>>>

  /**
   * The generator's state: `groups` is `agrupados`, `tables` the order in
   * which its tables were first inserted (the iteration order of a Python
   * dict), `order` is `columnas_orden` and `standalone` is
   * `selects_individuales`.
   */
  datatype Acc = Acc(tables: seq<string>, groups: Groups, order: map<string, seq<string>>, standalone: seq<string>)

  /** The state before the first statement. */
  const Empty := Acc([], map[], map[], [])

  /** `agrupados[t]` as a defaultdict reads it: the empty map when `t` was never grouped. */
  function Columns(g: Groups, t: string): map<string, set<string>> {
    if t in g then g[t] else map[]
  }

  /** `agrupados[t][c]` as a defaultdict reads it: the empty set when absent. */
  function Values(g: Groups, t: string, c: string): set<string> {
    if c in Columns(g, t) then Columns(g, t)[c] else {}
  }

  /** `columnas_orden[t]` as a defaultdict reads it: the empty list when absent. */
  function OrderOf(acc: Acc, t: string): seq<string> {
    if t in acc.order then acc.order[t] else []
  }

  /** `agrupados[t][c].add(v)`. */
  function AddValue(g: Groups, t: string, c: string, v: string): (r: Groups)
    ensures r.Keys == g.Keys + {t}
  {
    var inner := Columns(g, t);
    g[t := inner[c := Values(g, t, c) + {v}]]
  }

  /** Adding a value touches one set only: the set of `c` under `t` gains `v`. */
  lemma AddValueValues(g: Groups, t: string, c: string, v: string)
    ensures Values(AddValue(g, t, c, v), t, c) == Values(g, t, c) + {v}
    ensures forall c' :: c' != c ==> Values(AddValue(g, t, c, v), t, c') == Values(g, t, c')
    ensures forall t' :: t' != t && t' in g ==> AddValue(g, t, c, v)[t'] == g[t']
  {
  }

  /** The pair `(c, v)` is one of the pairs `zip(cs, vs)` yields. */
  predicate PairIn(cs: seq<string>, vs: seq<string>, c: string, v: string)
    requires |cs| == |vs|
  {
    exists i :: 0 <= i < |cs| && cs[i] == c && vs[i] == v
  }

  /** The loop `for col, val in zip(columnas, valores): agrupados[tabla][col].add(val)`, as a function of the pairs seen so far. */
  function AddPairs(g: Groups, t: string, cs: seq<string>, vs: seq<string>): (r: Groups)
    requires |cs| == |vs|
    ensures r.Keys == if cs == [] then g.Keys else g.Keys + {t}
  {
    if cs == [] then g
    else AddValue(AddPairs(g, t, cs[..|cs| - 1], vs[..|vs| - 1]), t, cs[|cs| - 1], vs[|vs| - 1])
  }

  /** The pairs of `cs, vs` are those of all but the last pair, and the last pair. */
  lemma PairInLast(cs: seq<string>, vs: seq<string>, c: string, v: string)
    requires |cs| == |vs| && cs != []
    ensures var n := |cs| - 1;
      PairIn(cs, vs, c, v) <==> PairIn(cs[..n], vs[..n], c, v) || (cs[n] == c && vs[n] == v)
  {
    var n := |cs| - 1;
    if PairIn(cs[..n], vs[..n], c, v) {
      var i :| 0 <= i < n && cs[..n][i] == c && vs[..n][i] == v;
      assert cs[i] == c && vs[i] == v;
    }
    if PairIn(cs, vs, c, v) && !(cs[n] == c && vs[n] == v) {
      var i :| 0 <= i < |cs| && cs[i] == c && vs[i] == v;
      assert i < n && cs[..n][i] == c && vs[..n][i] == v;
    }
  }

  /** One more pair adds its value to its column of `t`. */
  lemma AddPairsLast(g: Groups, t: string, cs: seq<string>, vs: seq<string>, c: string)
    requires |cs| == |vs| && cs != []
    ensures var n := |cs| - 1;
      Values(AddPairs(g, t, cs, vs), t, c)
        == Values(AddPairs(g, t, cs[..n], vs[..n]), t, c) + (if c == cs[n] then {vs[n]} else {})
    ensures forall t' :: t' != t && t' in g ==> AddPairs(g, t, cs, vs)[t'] == AddPairs(g, t, cs[..|cs| - 1], vs[..|vs| - 1])[t']
  {
    var n := |cs| - 1;
    AddValueValues(AddPairs(g, t, cs[..n], vs[..n]), t, cs[n], vs[n]);
  }

  /** One more pair is one more added value. */
  lemma AddPairsStep(g: Groups, t: string, cs: seq<string>, vs: seq<string>, i: nat)
    requires |cs| == |vs| && i < |cs|
    ensures AddPairs(g, t, cs[..i + 1], vs[..i + 1]) == AddValue(AddPairs(g, t, cs[..i], vs[..i]), t, cs[i], vs[i])
  {
    assert cs[..i + 1][..i] == cs[..i] && vs[..i + 1][..i] == vs[..i];
  }

  /** Grouping into table `t` adds exactly the pairs, and only under `t`. */
  lemma {:induction false} AddPairsValues(g: Groups, t: string, cs: seq<string>, vs: seq<string>)
    requires |cs| == |vs|
    ensures forall c, v :: v in Values(AddPairs(g, t, cs, vs), t, c) <==> v in Values(g, t, c) || PairIn(cs, vs, c, v)
    ensures forall t' :: t' != t && t' in g ==> AddPairs(g, t, cs, vs)[t'] == g[t']
  {
    if cs != [] {
      var n := |cs| - 1;
      AddPairsValues(g, t, cs[..n], vs[..n]);
      forall c, v ensures v in Values(AddPairs(g, t, cs, vs), t, c) <==> v in Values(g, t, c) || PairIn(cs, vs, c, v) {
        AddPairsLast(g, t, cs, vs, c);
        PairInLast(cs, vs, c, v);
      }
      AddPairsLast(g, t, cs, vs, "");
    }
  }

  /** `b` follows `a` by at most one step: at most one table or one stand-alone SELECT more, both lists extended at the end. */
  predicate GrowsByAtMostOne(a: Acc, b: Acc) {
    a.tables <= b.tables && a.standalone <= b.standalone
    && |b.tables| + |b.standalone| <= |a.tables| + |a.standalone| + 1
  }

  /**
   * A statement whose conjuncts are all groupable (lines 86-89): record its
   * column list as the table's order unless one is recorded already, then
   * add every `(column, value)` pair under the table.
   */
  function Group(acc: Acc, t: string, cs: seq<string>, vs: seq<string>): (r: Acc)
    requires |cs| == |vs| && cs != []
    ensures r.standalone == acc.standalone
    ensures r.tables == acc.tables || r.tables == acc.tables + [t]
    ensures GrowsByAtMostOne(acc, r)
    ensures t in r.groups && t in r.order
    ensures forall t' :: t' != t ==> OrderOf(r, t') == OrderOf(acc, t')
  {
    Acc(if t in acc.groups then acc.tables else acc.tables + [t],
        AddPairs(acc.groups, t, cs, vs),
        if OrderOf(acc, t) == [] then acc.order[t := cs] else acc.order,
        acc.standalone)
  }

  /** A statement that cannot be grouped (lines 90-93): one more stand-alone SELECT, at the end. */
  function Standalone(acc: Acc, select: string): (r: Acc)
    ensures r.standalone == acc.standalone + [select]
    ensures r.tables == acc.tables && r.groups == acc.groups && r.order == acc.order
    ensures GrowsByAtMostOne(acc, r)
  {
    acc.(standalone := acc.standalone + [select])
  }

  /** No table is listed twice. */
  predicate Distinct(s: seq<string>) {
    forall i, j :: 0 <= i < j < |s| ==> s[i] != s[j]
  }

  /**
   * What the loop keeps true: the table order lists each grouped table once,
   * and every grouped table has a non-empty recorded column order.
   */
  ghost predicate Valid(acc: Acc) {
    Distinct(acc.tables)
    && (forall t :: t in acc.groups <==> t in acc.tables)
    && (forall t :: t in acc.groups ==> OrderOf(acc, t) != [])
  }

  lemma EmptyValid()
    ensures Valid(Empty)
  {
  }

  /** Grouping keeps the state valid. */
  lemma GroupValid(acc: Acc, t: string, cs: seq<string>, vs: seq<string>)
    requires Valid(acc) && |cs| == |vs| && cs != []
    ensures Valid(Group(acc, t, cs, vs))
  {
    var r := Group(acc, t, cs, vs);
    forall t' | t' in r.groups ensures OrderOf(r, t') != [] {
      if t' != t {
        assert t' in acc.groups;
      }
    }
    if t !in acc.groups {
      forall i, j | 0 <= i < j < |r.tables| ensures r.tables[i] != r.tables[j] {
        if j == |acc.tables| {
          assert r.tables[i] == acc.tables[i] && acc.tables[i] in acc.groups;
        }
      }
    }
  }

  /** Adding a stand-alone SELECT keeps the state valid. */
  lemma StandaloneValid(acc: Acc, select: string)
    requires Valid(acc)
    ensures Valid(Standalone(acc, select))
  {
  }

  /**
   * The column order of a table is the column list of its first groupable
   * statement and is never changed afterwards.
   */
  lemma OrderFixedOnceSet(acc: Acc, t: string, cs: seq<string>, vs: seq<string>)
    requires |cs| == |vs| && cs != []
    ensures OrderOf(acc, t) == [] ==> OrderOf(Group(acc, t, cs, vs), t) == cs
    ensures OrderOf(acc, t) != [] ==> OrderOf(Group(acc, t, cs, vs), t) == OrderOf(acc, t)
  {
  }

  /** Grouping into `t` adds exactly its pairs to `t` and leaves every other table's values alone. */
  lemma GroupAddsPairs(acc: Acc, t: string, cs: seq<string>, vs: seq<string>)
    requires |cs| == |vs| && cs != []
    ensures forall c, v :: v in Values(Group(acc, t, cs, vs).groups, t, c) <==> v in Values(acc.groups, t, c) || PairIn(cs, vs, c, v)
    ensures forall t', c :: t' != t ==> Values(Group(acc, t, cs, vs).groups, t', c) == Values(acc.groups, t', c)
  {
    AddPairsValues(acc.groups, t, cs, vs);
  }

  /**
   * `b` is a later state than `a`: the table order and the stand-alone
   * SELECTs only grow at the end, a recorded column order never changes
   * and no value is ever removed.
   */
  ghost predicate Extends(a: Acc, b: Acc) {
    a.tables <= b.tables && a.standalone <= b.standalone
    && (forall t :: OrderOf(a, t) != [] ==> OrderOf(b, t) == OrderOf(a, t))
    && (forall t, c :: Values(a.groups, t, c) <= Values(b.groups, t, c))
  }

  lemma ExtendsReflexive(a: Acc)
    ensures Extends(a, a)
  {
  }

  lemma ExtendsTransitive(a: Acc, b: Acc, c: Acc)
    requires Extends(a, b) && Extends(b, c)
    ensures Extends(a, c)
  {
  }

  /** Grouping and adding a stand-alone SELECT both move to a later state. */
  lemma StepsExtend(acc: Acc, t: string, cs: seq<string>, vs: seq<string>, select: string)
    requires |cs| == |vs| && cs != []
    ensures Extends(acc, Group(acc, t, cs, vs))
    ensures Extends(acc, Standalone(acc, select))
  {
    GroupAddsPairs(acc, t, cs, vs);
    OrderFixedOnceSet(acc, t, cs, vs);
  }

  // ---------------------------------------------------------------------
  // Emission (lines 96-109).
  // ---------------------------------------------------------------------

  /** The IN list of a column: its values sorted by string order, each once. */
  function InList(cols: map<string, set<string>>, c: string): (r: seq<string>)
    ensures StrictlyAscending(r)
    ensures forall v :: v in r <==> c in cols && v in cols[c]
  {
    SortedList(if c in cols then cols[c] else {})
  }

  /** `f"{col} IN ({lista})"`. */
  function InCondition(d: Dialect, cols: map<string, set<string>>, c: string): (r: string)
    ensures |r| == |c| + |InOpen(d)| + |Join(",", InList(cols, c))| + 1 && r[|r| - 1] == ')'
  {
    c + InOpen(d) + Join(",", InList(cols, c)) + ")"
  }

  /** `r` reads back as the IN condition of column `c` over the comma-joined `list`. */
  predicate ReadsAsIn(d: Dialect, r: string, c: string, list: string) {
    var n := |c| + |InOpen(d)|;
    |r| == n + |list| + 1 && r[..|c|] == c && r[|c|..n] == InOpen(d) && r[n..|r| - 1] == list && r[|r| - 1] == ')'
  }

  /** The column and its comma-joined sorted values can be read back from an IN condition. */
  lemma InConditionReads(d: Dialect, cols: map<string, set<string>>, c: string)
    ensures ReadsAsIn(d, InCondition(d, cols, c), c, Join(",", InList(cols, c)))
  {
    FourParts(c, InOpen(d), "", Join(",", InList(cols, c)), ")");
    assert c + InOpen(d) + "" == c + InOpen(d);
  }

  /** One IN condition per column of the order, duplicates included. */
  function InConditions(d: Dialect, cols: map<string, set<string>>, order: seq<string>): (r: seq<string>)
    ensures |r| == |order|
    ensures forall k :: 0 <= k < |r| ==> r[k] == InCondition(d, cols, order[k])
  {
    seq(|order|, k requires 0 <= k < |order| => InCondition(d, cols, order[k]))
  }

  /** The columns a table is emitted with: its recorded order, or else its column names sorted. */
  function ColumnOrder(acc: Acc, t: string): (r: seq<string>)
    ensures OrderOf(acc, t) != [] ==> r == OrderOf(acc, t)
    ensures OrderOf(acc, t) == [] ==> StrictlyAscending(r) && forall c :: c in r <==> c in Columns(acc.groups, t)
  {
    if OrderOf(acc, t) != [] then OrderOf(acc, t) else SortedList(Columns(acc.groups, t).Keys)
  }

  /** The grouped SELECT of a table, when it has at least one condition. */
  function GroupedSelect(d: Dialect, acc: Acc, t: string): (r: Option<string>)
    ensures r.None? <==> OrderOf(acc, t) == [] && Columns(acc.groups, t).Keys == {}
  {
    var conds := InConditions(d, Columns(acc.groups, t), ColumnOrder(acc, t));
    if conds == [] then None else Some(SelectText(d, t, Join(AndWord(d), conds)))
  }

  /** The values of the options that are present, in order. */
  function Present(xs: seq<Option<string>>): (r: seq<string>)
    ensures |r| <= |xs|
  {
    if xs == [] then []
    else Present(xs[..|xs| - 1]) + (if xs[|xs| - 1].Some? then [xs[|xs| - 1].value] else [])
  }

  /** The grouped SELECT each table of `ts` yields, if any, in that order. */
  function Candidates(d: Dialect, acc: Acc, ts: seq<string>): (r: seq<Option<string>>)
    ensures |r| == |ts|
  {
    seq(|ts|, k requires 0 <= k < |ts| => GroupedSelect(d, acc, ts[k]))
  }

  /** The grouped SELECTs of the tables `ts`, in that order. */
  function GroupedSelects(d: Dialect, acc: Acc, ts: seq<string>): (r: seq<string>)
    ensures |r| <= |ts|
  {
    Present(Candidates(d, acc, ts))
  }

  /** The generator's result: the grouped SELECTs, then the stand-alone ones. */
  function Emit(d: Dialect, acc: Acc): (r: seq<string>)
    ensures |acc.standalone| <= |r| <= |acc.tables| + |acc.standalone|
    ensures r[|r| - |acc.standalone|..] == acc.standalone
  {
    GroupedSelects(d, acc, acc.tables) + acc.standalone
  }


  /** The grouped SELECT of table `t` in a valid state. */
  function TableSelect(d: Dialect, acc: Acc, t: string): string
    requires Valid(acc) && t in acc.tables
  {
    SelectText(d, t, Join(AndWord(d), InConditions(d, Columns(acc.groups, t), acc.order[t])))
  }

  /**
   * In a valid state the sorted-column fallback is never taken, and the
   * `if condiciones` test always passes: a grouped table yields its SELECT
   * with its recorded column order.
   */
  lemma FallbackUnreachable(d: Dialect, acc: Acc, t: string)
    requires Valid(acc) && t in acc.tables
    ensures ColumnOrder(acc, t) == acc.order[t] != []
    ensures GroupedSelect(d, acc, t) == Some(TableSelect(d, acc, t))
  {
    assert |InConditions(d, Columns(acc.groups, t), acc.order[t])| > 0;
  }

  /** When every option is present, their values are the options' values, in order. */
  lemma {:induction false} PresentAll(xs: seq<Option<string>>)
    requires forall k :: 0 <= k < |xs| ==> xs[k].Some?
    ensures |Present(xs)| == |xs|
    ensures forall k :: 0 <= k < |xs| ==> Present(xs)[k] == xs[k].value
  {
    if xs != [] {
      var n := |xs| - 1;
      var init := xs[..n];
      PresentAll(init);
      forall k | 0 <= k < |xs| ensures Present(xs)[k] == xs[k].value {
        if k < n {
          assert Present(xs)[k] == Present(init)[k] && init[k] == xs[k];
        }
      }
    }
  }

  /** One more table adds its grouped SELECT, if it has one. */
  lemma GroupedSelectsStep(d: Dialect, acc: Acc, ts: seq<string>, i: nat)
    requires i < |ts|
    ensures GroupedSelects(d, acc, ts[..i + 1])
      == GroupedSelects(d, acc, ts[..i]) + (if GroupedSelect(d, acc, ts[i]).Some? then [GroupedSelect(d, acc, ts[i]).value] else [])
  {
    var xs := Candidates(d, acc, ts[..i + 1]);
    assert xs[..i] == Candidates(d, acc, ts[..i]);
    assert xs[i] == GroupedSelect(d, acc, ts[i]);
  }

  /** In a valid state every listed table yields exactly its grouped SELECT. */
  lemma GroupedSelectsAll(d: Dialect, acc: Acc, ts: seq<string>)
    requires Valid(acc) && forall k :: 0 <= k < |ts| ==> ts[k] in acc.tables
    ensures |GroupedSelects(d, acc, ts)| == |ts|
    ensures forall k :: 0 <= k < |ts| ==> GroupedSelects(d, acc, ts)[k] == TableSelect(d, acc, ts[k])
  {
    var xs := Candidates(d, acc, ts);
    forall k | 0 <= k < |ts| ensures xs[k] == Some(TableSelect(d, acc, ts[k])) {
      FallbackUnreachable(d, acc, ts[k]);
    }
    PresentAll(xs);
  }

  /**
   * The output of a valid state: one grouped SELECT per table in
   * first-grouped order, followed by the stand-alone SELECTs in the order
   * they were met.
   */
  lemma EmitShape(d: Dialect, acc: Acc)
    requires Valid(acc)
    ensures |Emit(d, acc)| == |acc.tables| + |acc.standalone|
    ensures forall k :: 0 <= k < |acc.tables| ==> Emit(d, acc)[k] == TableSelect(d, acc, acc.tables[k])
    ensures Emit(d, acc)[|acc.tables|..] == acc.standalone
  {
    GroupedSelectsAll(d, acc, acc.tables);
  }

  // ---------------------------------------------------------------------
  // The loops that carry out the grouping and the emission.
  // ---------------------------------------------------------------------

  /** Lines 88-89: add each `(column, value)` pair of the statement under its table. */
  method AddGroupValues(g: Groups, t: string, cs: seq<string>, vs: seq<string>) returns (r: Groups)
    requires |cs| == |vs|
    ensures r == AddPairs(g, t, cs, vs)
  {
    r := g;
    var i := 0;
    while i < |cs|
      invariant 0 <= i <= |cs|
      invariant r == AddPairs(g, t, cs[..i], vs[..i])
    {
      AddPairsStep(g, t, cs, vs, i);
      var inner := if t in r then r[t] else map[];
      var vals := if cs[i] in inner then inner[cs[i]] else {};
      r := r[t := inner[cs[i] := vals + {vs[i]}]];
      i := i + 1;
    }
    assert cs[..i] == cs && vs[..i] == vs;
  }

  /** Lines 100-104: one `col IN (…)` condition per column of the order. */
  method BuildInConditions(d: Dialect, cols: map<string, set<string>>, order: seq<string>) returns (conds: seq<string>)
    ensures conds == InConditions(d, cols, order)
  {
    conds := [];
    var i := 0;
    while i < |order|
      invariant 0 <= i <= |order|
      invariant |conds| == i && forall k :: 0 <= k < i ==> conds[k] == InCondition(d, cols, order[k])
    {
      conds := conds + [InCondition(d, cols, order[i])];
      i := i + 1;
    }
  }

  /** Lines 98-106 for one table: its column order, its IN conditions and, when there is one, its SELECT. */
  method BuildGroupedSelect(d: Dialect, acc: Acc, t: string) returns (r: Option<string>)
    ensures r == GroupedSelect(d, acc, t)
  {
    var cols := Columns(acc.groups, t);
    var orden := if OrderOf(acc, t) != [] then OrderOf(acc, t) else SortedList(cols.Keys);
    var conds := BuildInConditions(d, cols, orden);
    r := None;
    if conds != [] {
      r := Some(SelectFrom(d) + t + WhereWord(d) + Join(AndWord(d), conds) + ";");
    }
  }

  /** Lines 96-106: the grouped SELECT of each table in insertion order, skipping a table with no IN condition. */
  method CollectGroupedSelects(d: Dialect, acc: Acc) returns (out: seq<string>)
    ensures out == GroupedSelects(d, acc, acc.tables)
  {
    out := [];
    var i := 0;
    while i < |acc.tables|
      invariant 0 <= i <= |acc.tables|
      invariant out == GroupedSelects(d, acc, acc.tables[..i])
    {
      GroupedSelectsStep(d, acc, acc.tables, i);
      var select := BuildGroupedSelect(d, acc, acc.tables[i]);
      if select.Some? {
        out := out + [select.value];
      }
      i := i + 1;
    }
    assert acc.tables[..i] == acc.tables;
  }


  /** Lines 98-110: the grouped SELECTs, then the stand-alone ones. */
  method EmitSelects(d: Dialect, acc: Acc) returns (out: seq<string>)
    ensures out == Emit(d, acc)
  {
    out := CollectGroupedSelects(d, acc);
    out := out + acc.standalone;
  }

}
