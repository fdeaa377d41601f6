/**
 * `formatear_y_generar_selects` (generate-scriptv3.py): only line comments
 * are removed, the lines joined, the text cut into statements, and each
 * UPDATE/DELETE either grouped, when every conjunct of its WHERE is an
 * equality with a quoted or digit literal, or copied into a stand-alone
 * SELECT in lower case.
 */
module SelectsV3 {
  import opened Wrappers
  import opened Ascii
  import opened Normalize
  import Statements
  import opened Conditions
  import opened Aggregation
  import SelectsV2

  /** Lines 6-7: line comments removed, lines stripped, blank lines dropped, the rest joined by single spaces. */
  function JoinedText(sql: string): (r: string)
    ensures NoLineBreak(r) && Unpadded(r)
    ensures NoDoubleDash(sql) ==> r == JoinLines(sql)
  {
    JoinLines(StripLineComments(sql))
  }

  /** A line comment is cut up to its line break, and the text around it is joined as if it were not there. */
  lemma JoinedTextCutsLineComment(line: string, comment: string, rest: string)
    requires '\n' !in line && NoDoubleDash(line) && (line == [] || line[|line| - 1] != '-')
    requires '\n' !in comment && NoDoubleDash(rest)
    ensures JoinedText(line + "--" + (comment + "\n" + rest)) == JoinLines(line + "\n" + rest)
  {
    StripLineCommentsCutsLine(line, comment, rest);
  }

  /** Block comments are not comments here: an opening and closing pair are kept as text. */
  lemma JoinedTextKeepsBlockComment(body: string, rest: string)
    requires NoDoubleDash("/*" + body + "*/" + rest)
    ensures JoinedText("/*" + body + "*/" + rest) == JoinLines("/*" + body + "*/" + rest)
  {
  }

  /** The stand-alone SELECT of a statement that cannot be grouped: its cleaned WHERE text as it stands. */
  function StandaloneSelect(target: Statements.Target): (r: string)
    ensures ReadsAsSelect(Lower, r, target.table, Statements.CleanWhere(target.where))
  {
    var w := Statements.CleanWhere(target.where);
    SelectTextReads(Lower, target.table, w);
    SelectText(Lower, target.table, w)
  }

  /** The statement a fragment holds, when it is not blank and matches one of the two shapes (lines 16-33). */
  function Recognise(frag: string): (r: Option<Statements.Target>)
    requires Statements.OneLine(frag)
    ensures r.Some? ==> Statements.OneLine(r.value.where)
  {
    var s := Strip(frag);
    if s == [] then None
    else
      var m := Statements.MatchStatement(s);
      if m.Some? then
        Statements.WhereOneLine(s);
        m
      else None
  }

  /**
   * Both generators recognise the same statements in the same fragment: the
   * other generator's extra skip of transaction-control text only rejects
   * what neither statement shape accepts.
   */
  lemma SameStatementsAsV2(frag: string)
    requires Statements.OneLine(frag)
    ensures Recognise(frag) == SelectsV2.Recognise(frag)
  {
    var s := Strip(frag);
    if s != [] && Statements.IsControl(s) {
      assert '\n' !in s;
      Statements.ControlIsNotStatement(s);
    }
  }

  /** Lines 36-60: what a recognised statement does to the state. */
  function StepTarget(acc: Acc, target: Statements.Target): (r: Acc)
    requires Statements.OneLine(target.where)
    ensures GrowsByAtMostOne(acc, r)
  {
    var a := AnalyseV3(ConjunctsOf(target));
    if a.simple && a.columns != [] then Group(acc, target.table, a.columns, a.values)
    else Standalone(acc, StandaloneSelect(target))
  }

  /** Lines 16-60: what one fragment does to the state. */
  function Step(acc: Acc, frag: string): (r: Acc)
    requires Statements.OneLine(frag)
    ensures GrowsByAtMostOne(acc, r)
  {
    match Recognise(frag)
    case None => acc
    case Some(target) => StepTarget(acc, target)
  }

  /** The state after the fragments `frags`, in order. */
  function Fold(frags: seq<string>): (r: Acc)
    requires forall k :: 0 <= k < |frags| ==> Statements.OneLine(frags[k])
    ensures |r.tables| + |r.standalone| <= |frags|
  {
    if frags == [] then Empty
    else Step(Fold(frags[..|frags| - 1]), frags[|frags| - 1])
  }

  /** The state after all the statements of `sql`. */
  function FinalState(sql: string): (r: Acc)
    ensures |r.tables| + |r.standalone| <= |Fragments(JoinedText(sql))|
  {
    FragmentsNoNewline(JoinedText(sql));
    Fold(Fragments(JoinedText(sql)))
  }

  /** The generator's result for the SQL text `sql`. */
  function BackupSelects(sql: string): (r: seq<string>)
    ensures |r| <= |Fragments(JoinedText(sql))|
  {
    Emit(Lower, FinalState(sql))
  }

  /** A blank fragment and one of neither shape change nothing. */
  lemma StepSkips(acc: Acc, frag: string)
    requires Statements.OneLine(frag)
    requires var s := Strip(frag); s == [] || Statements.MatchStatement(s).None?
    ensures Step(acc, frag) == acc
  {
  }

  /**
   * All or nothing: a recognised statement is grouped, with one column and
   * one literal per conjunct, exactly when every conjunct matches the
   * equality pattern; otherwise it adds exactly one stand-alone SELECT and
   * leaves the grouping alone.
   */
  lemma StepAllOrNothing(acc: Acc, target: Statements.Target)
    requires Statements.OneLine(target.where)
    ensures var conds := ConjunctsOf(target);
      var a := AnalyseV3(conds);
      ((forall k :: 0 <= k < |conds| ==> MatchSimple(conds[k]).Some?) ==>
        |a.columns| == |conds| && StepTarget(acc, target) == Group(acc, target.table, a.columns, a.values))
      && (!(forall k :: 0 <= k < |conds| ==> MatchSimple(conds[k]).Some?) ==>
        StepTarget(acc, target) == Standalone(acc, StandaloneSelect(target)))
  {
    var conds := ConjunctsOf(target);
    AnalyseV3Simple(conds);
    assert |conds| > 0;
  }

  /** Every value grouped so far is a quoted literal or a run of digits. */
  ghost predicate LiteralValues(acc: Acc) {
    forall t, c, v :: v in Values(acc.groups, t, c) ==> IsQuoted(v) || IsDigits(v)
  }

  /** Grouping literals keeps every grouped value a literal. */
  lemma GroupKeepsLiterals(acc: Acc, t: string, cs: seq<string>, vs: seq<string>)
    requires |cs| == |vs| && cs != [] && LiteralValues(acc)
    requires forall k :: 0 <= k < |vs| ==> IsQuoted(vs[k]) || IsDigits(vs[k])
    ensures LiteralValues(Group(acc, t, cs, vs))
  {
    GroupAddsPairs(acc, t, cs, vs);
  }

  /** Each step keeps the state valid, moves it to a later state and groups only literals. */
  lemma StepInvariant(acc: Acc, frag: string)
    requires Statements.OneLine(frag) && Valid(acc) && LiteralValues(acc)
    ensures Valid(Step(acc, frag)) && Extends(acc, Step(acc, frag)) && LiteralValues(Step(acc, frag))
  {
    match Recognise(frag)
    case None =>
      ExtendsReflexive(acc);
    case Some(target) =>
      assert Step(acc, frag) == StepTarget(acc, target);
      var a := AnalyseV3(ConjunctsOf(target));
      if a.simple && a.columns != [] {
        GroupValid(acc, target.table, a.columns, a.values);
        StepsExtend(acc, target.table, a.columns, a.values, "");
        GroupKeepsLiterals(acc, target.table, a.columns, a.values);
      } else {
        StandaloneValid(acc, StandaloneSelect(target));
        StepsExtend(acc, target.table, [""], [""], StandaloneSelect(target));
      }
  }

  /**
   * Reading more fragments only moves to a later state, and every grouped
   * value stays a literal.
   */
  lemma {:induction false} FoldInvariant(frags: seq<string>, i: nat)
    requires forall k :: 0 <= k < |frags| ==> Statements.OneLine(frags[k])
    requires i <= |frags|
    ensures Valid(Fold(frags)) && LiteralValues(Fold(frags)) && Extends(Fold(frags[..i]), Fold(frags))
    decreases |frags|
  {
    if frags == [] {
      EmptyValid();
      ExtendsReflexive(Empty);
    } else {
      var init := frags[..|frags| - 1];
      if i == |frags| {
        assert frags[..i] == frags;
        FoldInvariant(init, |init|);
        ExtendsReflexive(Fold(frags));
      } else {
        assert frags[..i] == init[..i];
        FoldInvariant(init, i);
      }
      StepInvariant(Fold(init), frags[|frags| - 1]);
      if i < |frags| {
        ExtendsTransitive(Fold(init[..i]), Fold(init), Fold(frags));
      }
    }
  }

  /**
   * The output: one grouped SELECT per table in first-grouped order, each
   * with its first-seen column order, then the stand-alone SELECTs in
   * encounter order; every value inside an IN list is a literal.
   */
  lemma BackupSelectsShape(sql: string)
    ensures var acc := FinalState(sql);
      Valid(acc) && LiteralValues(acc)
      && |BackupSelects(sql)| == |acc.tables| + |acc.standalone|
      && (forall k :: 0 <= k < |acc.tables| ==> BackupSelects(sql)[k] == TableSelect(Lower, acc, acc.tables[k]))
      && BackupSelects(sql)[|acc.tables|..] == acc.standalone
  {
    var t := JoinedText(sql);
    FragmentsNoNewline(t);
    var frags := Fragments(t);
    FoldInvariant(frags, 0);
    EmitShape(Lower, Fold(frags));
  }

  /** A run of fragments none of which is recognised leaves the state empty. */
  lemma {:induction false} FoldNothingRecognised(frags: seq<string>)
    requires forall k :: 0 <= k < |frags| ==> Statements.OneLine(frags[k]) && Recognise(frags[k]).None?
    ensures Fold(frags) == Empty
    decreases |frags|
  {
    if frags != [] {
      var init := frags[..|frags| - 1];
      assert forall k :: 0 <= k < |init| ==> init[k] == frags[k];
      FoldNothingRecognised(init);
    }
  }

  /** A batch in which no fragment is recognised yields no SELECT at all. */
  lemma NothingRecognised(sql: string, fs: seq<string>)
    requires NoDoubleDash(sql) && JoinLines(sql) == sql && Fragments(sql) == fs
    requires forall k :: 0 <= k < |fs| ==> Statements.OneLine(fs[k]) && Recognise(fs[k]).None?
    ensures BackupSelects(sql) == []
  {
    assert JoinedText(sql) == sql;
    FoldNothingRecognised(fs);
  }

  /**
   * `update t set updated_at = 1 where id = 1` is cut in front of
   * `updated_at`; neither `update t set` nor `updated_at = 1 where id = 1`
   * is a statement, so the UPDATE is dropped without any SELECT.
   */
  lemma UpdatedAtStatementDropped()
    ensures BackupSelects("update t set " + "updated_at = 1 where id = 1") == []
  {
    UpdatedAtNoComment();
    UpdatedAtOneLine();
    UpdatedAtFragments();
    Statements.UpdatedAtPartsOneLine();
    SetHeadNotRecognised();
    UpdatedAtPartNotRecognised();
    CutStatementDropped("update t set ", "updated_at = 1 where id = 1");
  }

  /** A batch cut into two fragments, neither of them recognised, yields no SELECT. */
  lemma CutStatementDropped(a: string, b: string)
    requires NoDoubleDash(a + b) && JoinLines(a + b) == a + b
    requires Fragments(a + b) == ["", a, b]
    requires Statements.OneLine(a) && Recognise(a).None?
    requires Statements.OneLine(b) && Recognise(b).None?
    ensures BackupSelects(a + b) == []
  {
    CutFragmentsSkipped(a, b);
    NothingRecognised(a + b, ["", a, b]);
  }

  /** The empty head and two unrecognised fragments are all skipped. */
  lemma CutFragmentsSkipped(a: string, b: string)
    requires Statements.OneLine(a) && Recognise(a).None?
    requires Statements.OneLine(b) && Recognise(b).None?
    ensures var fs := ["", a, b];
      forall k :: 0 <= k < |fs| ==> Statements.OneLine(fs[k]) && Recognise(fs[k]).None?
  {
    var fs := ["", a, b];
    forall k | 0 <= k < |fs|
      ensures Statements.OneLine(fs[k]) && Recognise(fs[k]).None?
    {
      if k == 0 {
        EmptyNotRecognised();
        assert fs[k] == "";
      } else if k == 1 {
        assert fs[k] == a;
      } else {
        assert fs[k] == b;
      }
    }
  }

  /** The empty fragment before the first statement is skipped. */
  lemma EmptyNotRecognised()
    ensures Statements.OneLine("") && Recognise("").None?
  {
  }

  /** `update t set ` strips to a text of neither shape. */
  lemma SetHeadNotRecognised()
    requires Statements.OneLine("update t set ")
    ensures Recognise("update t set ").None?
  {
    Statements.SetHeadStrip();
    Statements.SetHeadIsNotStatement();
  }

  /** `updated_at = 1 where id = 1` is already stripped and has neither shape. */
  lemma UpdatedAtPartNotRecognised()
    requires Statements.OneLine("updated_at = 1 where id = 1")
    ensures Recognise("updated_at = 1 where id = 1").None?
  {
    Statements.UpdatedAtPartStrip();
    Statements.UpdatedAtIsNotStatement();
  }

  /**
   * Lines 36-60 for a recognised statement: analyse its conjuncts, then
   * either group it (recording the table and its column order the first
   * time) or append its stand-alone SELECT.
   */
  method ProcessStatement(acc: Acc, target: Statements.Target) returns (r: Acc)
    requires Statements.OneLine(target.where)
    ensures r == StepTarget(acc, target)
  {
    var tables, agrupados, columnasOrden, individuales := acc.tables, acc.groups, acc.order, acc.standalone;
    var tabla := target.table;
    var condiciones := Statements.CleanWhere(target.where);
    var lista := ConjunctsOf(target);
    var columnas, valores, simples := AnalyseConditionsV3(lista);
    if simples && columnas != [] {
      if tabla !in agrupados {
        tables := tables + [tabla];
      }
      if tabla !in columnasOrden || columnasOrden[tabla] == [] {
        columnasOrden := columnasOrden[tabla := columnas];
      }
      agrupados := AddGroupValues(agrupados, tabla, columnas, valores);
    } else {
      individuales := individuales + [SelectText(Lower, tabla, condiciones)];
    }
    r := Acc(tables, agrupados, columnasOrden, individuales);
  }

  /** Lines 16-60 for one fragment: skip it unless it is recognised, otherwise process its statement. */
  method ProcessFragment(acc: Acc, frag: string) returns (r: Acc)
    requires Statements.OneLine(frag)
    ensures r == Step(acc, frag)
  {
    r := acc;
    var target := Recognise(frag);
    if target.Some? {
      r := ProcessStatement(acc, target.value);
    }
  }

  /** Reading one more fragment is one more step. */
  lemma FoldStep(frags: seq<string>, i: nat)
    requires forall k :: 0 <= k < |frags| ==> Statements.OneLine(frags[k])
    requires i < |frags|
    ensures Fold(frags[..i + 1]) == Step(Fold(frags[..i]), frags[i])
  {
    assert frags[..i + 1][..i] == frags[..i];
  }

  /** The loop at lines 16-60: each fragment in turn is handed to `ProcessFragment`. */
  method FoldFragments(sentencias: seq<string>) returns (acc: Acc)
    requires forall k :: 0 <= k < |sentencias| ==> Statements.OneLine(sentencias[k])
    ensures acc == Fold(sentencias)
  {
    acc := Empty;
    var i := 0;
    while i < |sentencias|
      invariant 0 <= i <= |sentencias|
      invariant acc == Fold(sentencias[..i])
    {
      FoldStep(sentencias, i);
      acc := ProcessFragment(acc, sentencias[i]);
      i := i + 1;
    }
    assert sentencias[..i] == sentencias;
  }

  /**
   * Lines 5-76: the generator. The loop is `FoldFragments`; the emission is
   * `EmitSelects`.
   */
  method GenerateBackupSelects(sql: string) returns (selects: seq<string>)
    ensures selects == BackupSelects(sql)
  {
    var texto := JoinedText(sql);
    var sentencias := Fragments(texto);
    FragmentsNoNewline(texto);
    var acc := FoldFragments(sentencias);
    selects := EmitSelects(Lower, acc);
  }
}
