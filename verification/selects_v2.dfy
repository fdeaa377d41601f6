/**
 * `generar_selects_de_respaldo` (Generate-selects-v2.py): both kinds of
 * comment are removed, the lines joined, the text cut into statements,
 * and each UPDATE/DELETE either grouped, when every conjunct of its WHERE
 * is an `=` or an `IN`, or copied into a stand-alone SELECT.
 */
module SelectsV2 {
  import opened Wrappers
  import opened Ascii
  import opened Normalize
  import Statements
  import opened Conditions
  import opened Aggregation

  /** Lines 9-13: comments removed, lines stripped, blank lines dropped, the rest joined by single spaces. */
  function JoinedText(sql: string): (r: string)
    ensures NoLineBreak(r) && Unpadded(r)
    ensures NoDoubleDash(sql) && NoCommentOpen(sql) ==> r == JoinLines(sql)
  {
    JoinLines(StripBlockComments(StripLineComments(sql)))
  }

  /** A line comment is cut up to its line break, and the text around it is joined as if it were not there. */
  lemma JoinedTextCutsLineComment(line: string, comment: string, rest: string)
    requires '\n' !in line && NoDoubleDash(line) && (line == [] || line[|line| - 1] != '-')
    requires '\n' !in comment && NoDoubleDash(rest)
    requires NoCommentOpen(line + "\n" + rest)
    ensures JoinedText(line + "--" + (comment + "\n" + rest)) == JoinLines(line + "\n" + rest)
  {
    StripLineCommentsCutsLine(line, comment, rest);
  }

  /** A closed block comment at the head of a comment-free text is dropped, delimiters and all. */
  lemma JoinedTextDropsBlockComment(body: string, rest: string)
    requires forall j :: 0 <= j < |body| - 1 ==> !HasAt(body, j, "*/")
    requires NoDoubleDash("/*" + body + "*/" + rest) && NoCommentOpen(rest)
    ensures JoinedText("/*" + body + "*/" + rest) == JoinLines(rest)
  {
    StripBlockCommentAtHead(body, rest);
  }

  /** A closed block comment after comment-free text is dropped, and the text on both sides is joined. */
  lemma JoinedTextDropsInnerBlockComment(x: string, body: string, rest: string)
    requires NoCommentOpen(x) && (x == [] || x[|x| - 1] != '/')
    requires forall j :: 0 <= j < |body| - 1 ==> !HasAt(body, j, "*/")
    requires NoDoubleDash(x + ("/*" + body + "*/" + rest)) && NoCommentOpen(rest)
    ensures JoinedText(x + ("/*" + body + "*/" + rest)) == JoinLines(x + rest)
  {
    StripBlockCommentInside(x, body, rest);
  }

  /** The stand-alone SELECT of a statement that cannot be grouped: its conjuncts joined by ` AND `. */
  function StandaloneSelect(target: Statements.Target, conds: seq<string>): (r: string)
    ensures ReadsAsSelect(Upper, r, target.table, Join(" AND ", conds))
  {
    SelectTextReads(Upper, target.table, Join(" AND ", conds));
    SelectText(Upper, target.table, Join(" AND ", conds))
  }

  /** The statement a fragment holds, when it is neither blank nor transaction control and matches one of the two shapes. */
  function Recognise(frag: string): (r: Option<Statements.Target>)
    requires Statements.OneLine(frag)
    ensures r.Some? ==> Statements.OneLine(r.value.where)
  {
    var s := Strip(frag);
    if s == [] || Statements.IsControl(s) then None
    else
      var m := Statements.MatchStatement(s);
      if m.Some? then
        Statements.WhereOneLine(s);
        m
      else None
  }

  /** Lines 47-93: what a recognised statement does to the state. */
  function StepTarget(acc: Acc, target: Statements.Target): (r: Acc)
    requires Statements.OneLine(target.where)
    ensures GrowsByAtMostOne(acc, r)
  {
    var conds := ConjunctsOf(target);
    var a := AnalyseV2(MatchAll(conds));
    if a.simple && a.columns != [] then Group(acc, target.table, a.columns, a.values)
    else Standalone(acc, StandaloneSelect(target, conds))
  }

  /** Lines 24-93: what one fragment does to the state. */
  function Step(acc: Acc, frag: string): (r: Acc)
    requires Statements.OneLine(frag)
    ensures GrowsByAtMostOne(acc, r)
  {
    match Recognise(frag)
    case None => acc
    case Some(target) => StepTarget(acc, target)
  }

  /** The state after the fragments `frags`, in order. */
  function Fold(frags: seq<string>): (r: Acc)
    requires forall k :: 0 <= k < |frags| ==> Statements.OneLine(frags[k])
    ensures |r.tables| + |r.standalone| <= |frags|
  {
    if frags == [] then Empty
    else Step(Fold(frags[..|frags| - 1]), frags[|frags| - 1])
  }

  /** The state after all the statements of `sql`. */
  function FinalState(sql: string): (r: Acc)
    ensures |r.tables| + |r.standalone| <= |Fragments(JoinedText(sql))|
  {
    FragmentsNoNewline(JoinedText(sql));
    Fold(Fragments(JoinedText(sql)))
  }

  /** The generator's result for the SQL text `sql`. */
  function BackupSelects(sql: string): (r: seq<string>)
    ensures |r| <= |Fragments(JoinedText(sql))|
  {
    Emit(Upper, FinalState(sql))
  }

  /** A blank fragment, a transaction-control fragment and one of neither shape change nothing. */
  lemma StepSkips(acc: Acc, frag: string)
    requires Statements.OneLine(frag)
    requires var s := Strip(frag); s == [] || Statements.IsControl(s) || Statements.MatchStatement(s).None?
    ensures Step(acc, frag) == acc
  {
  }

  /**
   * All or nothing: a recognised statement is grouped, with its columns and
   * values, exactly when every conjunct is an `=` or an `IN`; otherwise it
   * adds exactly one stand-alone SELECT and leaves the grouping alone.
   */
  lemma StepAllOrNothing(acc: Acc, target: Statements.Target)
    requires Statements.OneLine(target.where)
    ensures var conds := ConjunctsOf(target);
      var ms := MatchAll(conds);
      var a := AnalyseV2(ms);
      ((forall k :: 0 <= k < |ms| ==> Groupable(ms[k])) ==>
        a.columns != [] && StepTarget(acc, target) == Group(acc, target.table, a.columns, a.values))
      && (!(forall k :: 0 <= k < |ms| ==> Groupable(ms[k])) ==>
        StepTarget(acc, target) == Standalone(acc, StandaloneSelect(target, conds)))
  {
    GroupedIffAllGroupable(MatchAll(ConjunctsOf(target)));
  }

  /** Each step keeps the state valid and moves it to a later state. */
  lemma StepInvariant(acc: Acc, frag: string)
    requires Statements.OneLine(frag) && Valid(acc)
    ensures Valid(Step(acc, frag)) && Extends(acc, Step(acc, frag))
  {
    match Recognise(frag)
    case None =>
      ExtendsReflexive(acc);
    case Some(target) =>
      assert Step(acc, frag) == StepTarget(acc, target);
      var conds := ConjunctsOf(target);
      var a := AnalyseV2(MatchAll(conds));
      if a.simple && a.columns != [] {
        GroupValid(acc, target.table, a.columns, a.values);
        StepsExtend(acc, target.table, a.columns, a.values, "");
      } else {
        StandaloneValid(acc, StandaloneSelect(target, conds));
        StepsExtend(acc, target.table, [""], [""], StandaloneSelect(target, conds));
      }
  }

  /**
   * Reading more fragments only moves to a later state: tables keep their
   * first-grouped positions, stand-alone SELECTs keep encounter order,
   * recorded column orders never change and values are never lost.
   */
  lemma {:induction false} FoldInvariant(frags: seq<string>, i: nat)
    requires forall k :: 0 <= k < |frags| ==> Statements.OneLine(frags[k])
    requires i <= |frags|
    ensures Valid(Fold(frags)) && Extends(Fold(frags[..i]), Fold(frags))
    decreases |frags|
  {
    if frags == [] {
      EmptyValid();
      ExtendsReflexive(Empty);
    } else {
      var init := frags[..|frags| - 1];
      if i == |frags| {
        assert frags[..i] == frags;
        FoldInvariant(init, |init|);
        ExtendsReflexive(Fold(frags));
      } else {
        assert frags[..i] == init[..i];
        FoldInvariant(init, i);
      }
      StepInvariant(Fold(init), frags[|frags| - 1]);
      if i < |frags| {
        ExtendsTransitive(Fold(init[..i]), Fold(init), Fold(frags));
      }
    }
  }

  /**
   * The output: one grouped SELECT per table in first-grouped order, each
   * with its first-seen column order, then the stand-alone SELECTs in
   * encounter order.
   */
  lemma BackupSelectsShape(sql: string)
    ensures var acc := FinalState(sql);
      Valid(acc)
      && |BackupSelects(sql)| == |acc.tables| + |acc.standalone|
      && (forall k :: 0 <= k < |acc.tables| ==> BackupSelects(sql)[k] == TableSelect(Upper, acc, acc.tables[k]))
      && BackupSelects(sql)[|acc.tables|..] == acc.standalone
  {
    var t := JoinedText(sql);
    FragmentsNoNewline(t);
    var frags := Fragments(t);
    FoldInvariant(frags, 0);
    EmitShape(Upper, Fold(frags));
  }

  /** A run of fragments none of which is recognised leaves the state empty. */
  lemma {:induction false} FoldNothingRecognised(frags: seq<string>)
    requires forall k :: 0 <= k < |frags| ==> Statements.OneLine(frags[k]) && Recognise(frags[k]).None?
    ensures Fold(frags) == Empty
    decreases |frags|
  {
    if frags != [] {
      var init := frags[..|frags| - 1];
      assert forall k :: 0 <= k < |init| ==> init[k] == frags[k];
      FoldNothingRecognised(init);
    }
  }

  /** A batch in which no fragment is recognised yields no SELECT at all. */
  lemma NothingRecognised(sql: string, fs: seq<string>)
    requires NoDoubleDash(sql) && NoCommentOpen(sql) && JoinLines(sql) == sql && Fragments(sql) == fs
    requires forall k :: 0 <= k < |fs| ==> Statements.OneLine(fs[k]) && Recognise(fs[k]).None?
    ensures BackupSelects(sql) == []
  {
    assert JoinedText(sql) == sql;
    FoldNothingRecognised(fs);
  }

  /**
   * `update t set updated_at = 1 where id = 1` is cut in front of
   * `updated_at`; neither `update t set` nor `updated_at = 1 where id = 1`
   * is a statement, so the UPDATE is dropped without any SELECT.
   */
  lemma UpdatedAtStatementDropped()
    ensures BackupSelects("update t set " + "updated_at = 1 where id = 1") == []
  {
    UpdatedAtNoComment();
    UpdatedAtOneLine();
    UpdatedAtFragments();
    Statements.UpdatedAtPartsOneLine();
    SetHeadNotRecognised();
    UpdatedAtPartNotRecognised();
    CutStatementDropped("update t set ", "updated_at = 1 where id = 1");
  }

  /** A batch cut into two fragments, neither of them recognised, yields no SELECT. */
  lemma CutStatementDropped(a: string, b: string)
    requires NoDoubleDash(a + b) && NoCommentOpen(a + b) && JoinLines(a + b) == a + b
    requires Fragments(a + b) == ["", a, b]
    requires Statements.OneLine(a) && Recognise(a).None?
    requires Statements.OneLine(b) && Recognise(b).None?
    ensures BackupSelects(a + b) == []
  {
    CutFragmentsSkipped(a, b);
    NothingRecognised(a + b, ["", a, b]);
  }

  /** The empty head and two unrecognised fragments are all skipped. */
  lemma CutFragmentsSkipped(a: string, b: string)
    requires Statements.OneLine(a) && Recognise(a).None?
    requires Statements.OneLine(b) && Recognise(b).None?
    ensures var fs := ["", a, b];
      forall k :: 0 <= k < |fs| ==> Statements.OneLine(fs[k]) && Recognise(fs[k]).None?
  {
    var fs := ["", a, b];
    forall k | 0 <= k < |fs|
      ensures Statements.OneLine(fs[k]) && Recognise(fs[k]).None?
    {
      if k == 0 {
        EmptyNotRecognised();
        assert fs[k] == "";
      } else if k == 1 {
        assert fs[k] == a;
      } else {
        assert fs[k] == b;
      }
    }
  }

  /** The empty fragment before the first statement is skipped. */
  lemma EmptyNotRecognised()
    ensures Statements.OneLine("") && Recognise("").None?
  {
  }

  /** `update t set ` strips to a text of neither shape. */
  lemma SetHeadNotRecognised()
    requires Statements.OneLine("update t set ")
    ensures Recognise("update t set ").None?
  {
    Statements.SetHeadStrip();
    Statements.SetHeadIsNotStatement();
  }

  /** `updated_at = 1 where id = 1` is already stripped and has neither shape. */
  lemma UpdatedAtPartNotRecognised()
    requires Statements.OneLine("updated_at = 1 where id = 1")
    ensures Recognise("updated_at = 1 where id = 1").None?
  {
    Statements.UpdatedAtPartStrip();
    Statements.UpdatedAtIsNotStatement();
  }

  /**
   * Lines 47-93 for a recognised statement: analyse its conjuncts, then
   * either group it (recording the table and its column order the first
   * time) or append its stand-alone SELECT.
   */
  method ProcessStatement(acc: Acc, target: Statements.Target) returns (r: Acc)
    requires Statements.OneLine(target.where)
    ensures r == StepTarget(acc, target)
  {
    var tables, agrupados, columnasOrden, individuales := acc.tables, acc.groups, acc.order, acc.standalone;
    var tabla := target.table;
    var lista := ConjunctsOf(target);
    var columnas, valores, simples := AnalyseConditionsV2(lista);
    if simples && columnas != [] {
      if tabla !in agrupados {
        tables := tables + [tabla];
      }
      if tabla !in columnasOrden || columnasOrden[tabla] == [] {
        columnasOrden := columnasOrden[tabla := columnas];
      }
      agrupados := AddGroupValues(agrupados, tabla, columnas, valores);
    } else {
      individuales := individuales + [StandaloneSelect(target, lista)];
    }
    r := Acc(tables, agrupados, columnasOrden, individuales);
  }

  /** Lines 24-93 for one fragment: skip it unless it is recognised, otherwise process its statement. */
  method ProcessFragment(acc: Acc, frag: string) returns (r: Acc)
    requires Statements.OneLine(frag)
    ensures r == Step(acc, frag)
  {
    r := acc;
    var target := Recognise(frag);
    if target.Some? {
      r := ProcessStatement(acc, target.value);
    }
  }

  /** Reading one more fragment is one more step. */
  lemma FoldStep(frags: seq<string>, i: nat)
    requires forall k :: 0 <= k < |frags| ==> Statements.OneLine(frags[k])
    requires i < |frags|
    ensures Fold(frags[..i + 1]) == Step(Fold(frags[..i]), frags[i])
  {
    assert frags[..i + 1][..i] == frags[..i];
  }

  /** The loop at lines 23-93: each fragment in turn is handed to `ProcessFragment`. */
  method FoldFragments(sentencias: seq<string>) returns (acc: Acc)
    requires forall k :: 0 <= k < |sentencias| ==> Statements.OneLine(sentencias[k])
    ensures acc == Fold(sentencias)
  {
    acc := Empty;
    var i := 0;
    while i < |sentencias|
      invariant 0 <= i <= |sentencias|
      invariant acc == Fold(sentencias[..i])
    {
      FoldStep(sentencias, i);
      acc := ProcessFragment(acc, sentencias[i]);
      i := i + 1;
    }
    assert sentencias[..i] == sentencias;
  }

  /**
   * Lines 7-110: the generator. The loop is `FoldFragments`; the emission is
   * `EmitSelects`.
   */
  method GenerateBackupSelects(sql: string) returns (selects: seq<string>)
    ensures selects == BackupSelects(sql)
  {
    var texto := JoinedText(sql);
    var sentencias := Fragments(texto);
    FragmentsNoNewline(texto);
    var acc := FoldFragments(sentencias);
    selects := EmitSelects(Upper, acc);
  }
}
