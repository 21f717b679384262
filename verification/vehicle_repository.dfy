/**
 * `VehicleDataRepository`: compiles a validated request into the detection
 * statistics query. `format_distance_columns` turns every interval that lies
 * inside the range into one percentage column labelled `"start-end"`;
 * `detection_statistics` builds the WHERE clause together with its
 * positional bind parameters and fills the fixed SELECT template.
 */
module VehicleRepository {
  import opened Wrappers
  import opened Text
  import opened VehicleData
  import opened VehicleValidations
  import opened Queries
  import opened SqlText

  // ---------------------------------------------------------------------
  // Distance columns
  // ---------------------------------------------------------------------

  /** `start >= range[0] and end <= range[1]`. */
  predicate Within(iv: Span, range: Span) {
    iv.lo >= range.lo && iv.hi <= range.hi
  }

  /** The intervals that get a column: those inside the range, in input order. */
  function KeptIntervals(range: Span, ivs: seq<Span>): (kept: seq<Span>)
    ensures |kept| <= |ivs|
    ensures forall iv :: iv in kept <==> iv in ivs && Within(iv, range)
  {
    if |ivs| == 0 then []
    else (if Within(ivs[0], range) then [ivs[0]] else []) + KeptIntervals(range, ivs[1..])
  }

  /** The positions, from `from` on, whose interval lies inside the range, in increasing order. */
  function KeptPositions(range: Span, ivs: seq<Span>, from: nat): (idx: seq<nat>)
    requires from <= |ivs|
    ensures forall j :: 0 <= j < |idx| ==> from <= idx[j] < |ivs|
    ensures forall j, k :: 0 <= j < k < |idx| ==> idx[j] < idx[k]
    decreases |ivs| - from
  {
    if from == |ivs| then []
    else (if Within(ivs[from], range) then [from] else []) + KeptPositions(range, ivs, from + 1)
  }

  /** Exactly the positions whose interval lies inside the range are listed. */
  lemma {:induction false} KeptPositionsExact(range: Span, ivs: seq<Span>, from: nat)
    requires from <= |ivs|
    ensures forall i :: from <= i < |ivs| ==> (i in KeptPositions(range, ivs, from) <==> Within(ivs[i], range))
    decreases |ivs| - from
  {
    if from < |ivs| {
      KeptPositionsExact(range, ivs, from + 1);
    }
  }

  /**
   * The kept intervals are the input read at those positions: filtering keeps
   * the input order and drops nothing inside the range.
   */
  lemma {:induction false} KeptPositionsRead(range: Span, ivs: seq<Span>, from: nat)
    requires from <= |ivs|
    ensures |KeptPositions(range, ivs, from)| == |KeptIntervals(range, ivs[from..])|
    ensures forall j :: 0 <= j < |KeptPositions(range, ivs, from)| ==>
      KeptIntervals(range, ivs[from..])[j] == ivs[KeptPositions(range, ivs, from)[j]]
    decreases |ivs| - from
  {
    if from < |ivs| {
      KeptPositionsRead(range, ivs, from + 1);
      assert ivs[from..][1..] == ivs[from + 1..];
    }
  }

  /** Filtering commutes with concatenation, so the relative order of kept intervals is the input order. */
  lemma {:induction false} KeptIntervalsConcat(range: Span, a: seq<Span>, b: seq<Span>)
    ensures KeptIntervals(range, a + b) == KeptIntervals(range, a) + KeptIntervals(range, b)
  {
    if |a| > 0 {
      assert (a + b)[1..] == a[1..] + b;
      KeptIntervalsConcat(range, a[1..], b);
    } else {
      assert a + b == b;
    }
  }

  /** When every interval is inside the range, all of them are kept. */
  lemma {:induction false} KeptIntervalsAll(range: Span, ivs: seq<Span>)
    requires forall i :: 0 <= i < |ivs| ==> Within(ivs[i], range)
    ensures KeptIntervals(range, ivs) == ivs
  {
    if |ivs| > 0 {
      KeptIntervalsAll(range, ivs[1..]);
    }
  }

  /** The kept intervals of a validated request have non-negative bounds. */
  lemma KeptNonNegative(req: ValidRequest)
    ensures forall iv :: iv in KeptIntervals(req.distanceRange, req.distanceIntervals) ==> NonNegative(iv)
  {
    forall iv | iv in KeptIntervals(req.distanceRange, req.distanceIntervals)
      ensures NonNegative(iv)
    {
      var i :| 0 <= i < |req.distanceIntervals| && req.distanceIntervals[i] == iv;
      assert IntervalValid(req.distanceIntervals[i]);
    }
  }

  predicate AllNonNegative(ivs: seq<Span>) {
    forall i :: 0 <= i < |ivs| ==> NonNegative(ivs[i])
  }

  /** The column alias `f"{start}-{end}"`. */
  function Label(iv: Span): string
    requires NonNegative(iv)
  {
    NatToString(iv.lo) + "-" + NatToString(iv.hi)
  }

  /** Splits an alias at its first `-` and reads both halves as naturals. */
  function ParseLabel(name: string): Option<Span>
  {
    match IndexOf(name, '-')
    case None => None
    case Some(i) =>
      match (ParseNat(name[..i]), ParseNat(name[i + 1..]))
      case (Some(lo), Some(hi)) => Some(Span(lo, hi))
      case _ => None
  }

  /** Every alias reads back as the interval it labels, so distinct intervals get distinct aliases. */
  lemma LabelRoundTrip(iv: Span)
    requires NonNegative(iv)
    ensures ParseLabel(Label(iv)) == Some(iv)
  {
    var a := NatToString(iv.lo);
    var b := NatToString(iv.hi);
    var name := Label(iv);
    assert '-' !in a;
    IndexOfAfterPrefix(a, '-', b);
    assert name == a + ['-'] + b;
    assert name[..|a|] == a;
    assert name[|a| + 1..] == b;
    NatToStringRoundTrip(iv.lo);
    NatToStringRoundTrip(iv.hi);
  }

  /** `CASE WHEN distance BETWEEN {start} AND {end}`. */
  function InInterval(iv: Span): string
    requires NonNegative(iv)
  {
    CaseWhen + NatToString(iv.lo) + BetweenAnd + NatToString(iv.hi)
  }

  /** The percentage expression of one interval, with its endpoints inlined as literals. */
  function ColumnExpr(iv: Span): string
    requires NonNegative(iv)
  {
    RoundOpen + InInterval(iv) + SumClose + CountOpen + InInterval(iv) + CountClose + AliasKeyword
  }

  /**
   * One column of the projection: the expression aliased as `"start-end"`.
   * It declares exactly one name, the interval's label, and binds nothing.
   */
  function ColumnSql(iv: Span): (col: string)
    requires NonNegative(iv)
    ensures ReadColumn(col) == Some((iv, ""))
    ensures QuotedNames(col) == [Label(iv)]
    ensures '?' !in col
  {
    ColumnTextClean(iv);
    var col := ColumnExpr(iv) + ['"'] + Label(iv) + ['"'];
    QuotedNamesCons(ColumnExpr(iv), Label(iv), "");
    ReadColumnOf(iv, "");
    assert col + "" == col;
    col
  }

  /**
   * Reads one column at the start of `s`: an expression testing the same
   * interval twice, then that interval's label in double quotes. Returns
   * the interval and the text after the closing quote.
   */
  function ReadColumn(s: string): (r: Option<(Span, string)>)
    ensures r.Some? ==> |r.value.1| < |s|
  {
    match SplitQuoted(s)
    case None => None
    case Some((e, name, rest)) =>
      match ReadColumnExpr(e)
      case Some((a, b)) => if a == b && ParseLabel(name) == Some(a) then Some((a, rest)) else None
      case None => None
  }

  /**
   * Reads a column fragment back as the intervals of its columns, which
   * must be separated by `", "`; any other text reads as nothing.
   */
  function ReadColumns(s: string): Option<seq<Span>>
    decreases |s|
  {
    if s == "" then Some([])
    else match ReadColumn(s)
      case None => None
      case Some((iv, rest)) =>
        if rest == "" then Some([iv])
        else match AfterPrefix(rest, ", ")
          case None => None
          case Some(more) =>
            if more == "" then None
            else match ReadColumns(more)
              case None => None
              case Some(ivs) => Some([iv] + ivs)
  }

  lemma ReadColumnOfParts(iv: Span, e: string, name: string, t: string)
    requires '"' !in e && '"' !in name
    requires ReadColumnExpr(e) == Some((iv, iv)) && ParseLabel(name) == Some(iv)
    ensures ReadColumn(e + ['"'] + name + ['"'] + t) == Some((iv, t))
  {
    SplitQuotedOf(e, name, t);
  }

  /** A column followed by any text reads back as its interval and that text. */
  lemma ReadColumnOf(iv: Span, t: string)
    requires NonNegative(iv)
    ensures ReadColumn(ColumnExpr(iv) + ['"'] + Label(iv) + ['"'] + t) == Some((iv, t))
  {
    ColumnTextClean(iv);
    ColumnExprReadsBack(iv);
    LabelRoundTrip(iv);
    ReadColumnOfParts(iv, ColumnExpr(iv), Label(iv), t);
  }

  /** Reads `{start} and {end}` at the start of `s`, returning the interval and the text after it. */
  function ReadBounds(s: string, and: string): Option<(Span, string)>
  {
    match ReadNat(s)
    case None => None
    case Some((lo, afterLo)) =>
      match AfterPrefix(afterLo, and)
      case None => None
      case Some(beforeHi) =>
        match ReadNat(beforeHi)
        case None => None
        case Some((hi, rest)) => Some((Span(lo, hi), rest))
  }

  /**
   * Reads `open {a} and {b} mid {c} and {d} close` back as the two intervals
   * `(a, b)` and `(c, d)`; any other text reads as nothing.
   */
  function ReadBoundsPair(e: string, open: string, and: string, mid: string, close: string): Option<(Span, Span)>
  {
    match AfterPrefix(e, open)
    case None => None
    case Some(first) =>
      match ReadBounds(first, and)
      case None => None
      case Some((a, afterFirst)) =>
        match AfterPrefix(afterFirst, mid)
        case None => None
        case Some(second) =>
          match ReadBounds(second, and)
          case None => None
          case Some((b, tail)) => if tail == close then Some((a, b)) else None
  }

  /** Reads a percentage expression back: the interval tested inside `SUM` and the one tested inside `COUNT`. */
  function ReadColumnExpr(e: string): Option<(Span, Span)>
  {
    ReadBoundsPair(e, RoundOpen + CaseWhen, BetweenAnd, SumClose + CountOpen + CaseWhen, CountClose + AliasKeyword)
  }

  lemma ReadBoundsOf(iv: Span, and: string, t: string)
    requires NonNegative(iv)
    requires |and| > 0 && !IsDigit(and[0])
    requires |t| == 0 || !IsDigit(t[0])
    ensures ReadBounds(NatToString(iv.lo) + and + NatToString(iv.hi) + t, and) == Some((iv, t))
  {
    var a := NatToString(iv.lo);
    var b := NatToString(iv.hi);
    assert (and + (b + t))[0] == and[0];
    ReadNatOf(iv.lo, and + (b + t));
    ReadNatOf(iv.hi, t);
    ReadBoundsOfParts(iv, a, and, b, t);
  }

  lemma ReadBoundsOfParts(iv: Span, a: string, and: string, b: string, t: string)
    requires ReadNat(a + (and + (b + t))) == Some((iv.lo, and + (b + t)))
    requires ReadNat(b + t) == Some((iv.hi, t))
    ensures ReadBounds(a + and + b + t, and) == Some((iv, t))
  {
    assert a + and + b + t == a + (and + (b + t));
    AfterPrefixOf(and, b + t);
  }

  lemma ReadBoundsPairOf(iv: Span, open: string, and: string, mid: string, close: string)
    requires NonNegative(iv)
    requires |and| > 0 && !IsDigit(and[0])
    requires |mid| > 0 && !IsDigit(mid[0]) && (|close| == 0 || !IsDigit(close[0]))
    ensures
      var x := NatToString(iv.lo) + and + NatToString(iv.hi);
      ReadBoundsPair(open + (x + (mid + (x + close))), open, and, mid, close) == Some((iv, iv))
  {
    var x := NatToString(iv.lo) + and + NatToString(iv.hi);
    assert (mid + (x + close))[0] == mid[0];
    ReadBoundsOf(iv, and, mid + (x + close));
    ReadBoundsOf(iv, and, close);
    ReadBoundsPairOfParts(iv, x, open, and, mid, close);
  }

  lemma ReadBoundsPairOfParts(iv: Span, x: string, open: string, and: string, mid: string, close: string)
    requires ReadBounds(x + (mid + (x + close)), and) == Some((iv, mid + (x + close)))
    requires ReadBounds(x + close, and) == Some((iv, close))
    ensures ReadBoundsPair(open + (x + (mid + (x + close))), open, and, mid, close) == Some((iv, iv))
  {
    AfterPrefixOf(open, x + (mid + (x + close)));
    AfterPrefixOf(mid, x + close);
  }

  lemma Regroup(p: string, c: string, a: string, between: string, b: string, q: string, r: string, s: string, t: string)
    ensures p + (c + a + between + b) + q + r + (c + a + between + b) + s + t
         == (p + c) + ((a + between + b) + ((q + r + c) + ((a + between + b) + (s + t))))
  {
  }

  /**
   * Both `BETWEEN` tests of an interval's column use that interval's own
   * endpoints: the expression reads back as the interval, twice.
   */
  lemma ColumnExprReadsBack(iv: Span)
    requires NonNegative(iv)
    ensures ReadColumnExpr(ColumnExpr(iv)) == Some((iv, iv))
  {
    Regroup(RoundOpen, CaseWhen, NatToString(iv.lo), BetweenAnd, NatToString(iv.hi), SumClose, CountOpen, CountClose, AliasKeyword);
    assert SumClose[0] == ' ' && CountClose[0] == ' ';
    assert (SumClose + CountOpen + CaseWhen)[0] == ' ';
    assert (CountClose + AliasKeyword)[0] == ' ';
    assert BetweenAnd[0] == ' ';
    ReadBoundsPairOf(iv, RoundOpen + CaseWhen, BetweenAnd, SumClose + CountOpen + CaseWhen, CountClose + AliasKeyword);
  }

  /** The expression and the alias contain no quote and no placeholder. */
  lemma ColumnTextClean(iv: Span)
    requires NonNegative(iv)
    ensures Plain(ColumnExpr(iv)) && Plain(Label(iv))
  {
    var s := NatToString(iv.lo);
    var e := NatToString(iv.hi);
    assert Plain(s) && Plain(e);
    ExprPiecesPlain();
    assert Plain(InInterval(iv));
    assert Plain(ColumnExpr(iv));
    assert Plain(Label(iv));
  }

  function ColumnSqls(kept: seq<Span>): (cols: seq<string>)
    requires AllNonNegative(kept)
    ensures |cols| == |kept|
  {
    if |kept| == 0 then [] else [ColumnSql(kept[0])] + ColumnSqls(kept[1..])
  }

  function Labels(kept: seq<Span>): (labels: seq<string>)
    requires AllNonNegative(kept)
    ensures |labels| == |kept|
  {
    if |kept| == 0 then [] else [Label(kept[0])] + Labels(kept[1..])
  }

  /** The labels, read back, are the kept intervals themselves, in order. */
  lemma {:induction false} LabelsReadBack(kept: seq<Span>)
    requires AllNonNegative(kept)
    ensures forall i :: 0 <= i < |kept| ==> ParseLabel(Labels(kept)[i]) == Some(kept[i])
  {
    if |kept| > 0 {
      LabelRoundTrip(kept[0]);
      LabelsReadBack(kept[1..]);
    }
  }

  /**
   * `format_distance_columns`: the kept columns joined by `", "`. The
   * fragment declares the labels of the kept intervals, in order, binds no
   * parameter, and is empty exactly when nothing is kept.
   */
  function FormatDistanceColumns(req: ValidRequest): (cols: string)
    ensures AllNonNegative(KeptIntervals(req.distanceRange, req.distanceIntervals))
    ensures QuotedNames(cols) == Labels(KeptIntervals(req.distanceRange, req.distanceIntervals))
    ensures ReadColumns(cols) == Some(KeptIntervals(req.distanceRange, req.distanceIntervals))
    ensures cols == "" <==> |KeptIntervals(req.distanceRange, req.distanceIntervals)| == 0
    ensures '?' !in cols
  {
    var kept := KeptIntervals(req.distanceRange, req.distanceIntervals);
    KeptNonNegative(req);
    var cols := Join(ColumnSqls(kept), ", ");
    FragmentReadsBack(kept);
    FragmentNames(kept, "");
    assert cols + "" == cols;
    FragmentEmpty(kept);
    FragmentHasNoPlaceholder(kept);
    cols
  }

  /**
   * The fragment reads back, column by column, as the kept intervals: each
   * column's expression and alias are built from its own interval, and the
   * columns are separated by `", "`.
   */
  lemma FragmentReadsBack(kept: seq<Span>)
    requires AllNonNegative(kept)
    ensures ReadColumns(Join(ColumnSqls(kept), ", ")) == Some(kept)
  {
    var prefixes := seq(|kept|, i requires 0 <= i < |kept| => ColumnExpr(kept[i]));
    forall i | 0 <= i < |kept|
      ensures ColumnOver(ColumnSqls(kept)[i], prefixes[i], Labels(kept)[i], kept[i])
    {
      ColumnSqlsAt(kept, i);
      LabelsAt(kept, i);
      ColumnTextClean(kept[i]);
      ColumnExprReadsBack(kept[i]);
      LabelRoundTrip(kept[i]);
    }
    ReadJoinedColumns(ColumnSqls(kept), prefixes, Labels(kept), kept);
  }

  /** `col` is `expr "name"`, with `expr` testing `iv` twice and `name` its label. */
  predicate ColumnOver(col: string, expr: string, name: string, iv: Span) {
    Encloses(col, expr, name) && ReadColumnExpr(expr) == Some((iv, iv)) && ParseLabel(name) == Some(iv)
  }

  /** Columns each over their interval, joined by `", "`, read back as the intervals. */
  lemma ReadJoinedColumns(cols: seq<string>, exprs: seq<string>, names: seq<string>, ivs: seq<Span>)
    requires |cols| == |exprs| == |names| == |ivs|
    requires forall i :: 0 <= i < |cols| ==> ColumnOver(cols[i], exprs[i], names[i], ivs[i])
    ensures ReadColumns(Join(cols, ", ")) == Some(ivs)
  {
    ReadJoinedColumnsFrom(cols, exprs, names, ivs, 0);
    assert cols[0..] == cols && ivs[0..] == ivs;
  }

  lemma {:induction false} ReadJoinedColumnsFrom(cols: seq<string>, exprs: seq<string>, names: seq<string>, ivs: seq<Span>, k: nat)
    requires |cols| == |exprs| == |names| == |ivs| && k <= |cols|
    requires forall i :: 0 <= i < |cols| ==> ColumnOver(cols[i], exprs[i], names[i], ivs[i])
    ensures ReadColumns(Join(cols[k..], ", ")) == Some(ivs[k..])
    decreases |cols| - k
  {
    if k == |cols| {
      assert |ivs[k..]| == 0;
    } else if k == |cols| - 1 {
      SliceLast(cols, k);
      SliceLast(ivs, k);
      ColumnAlone(cols[k], exprs[k], names[k], ivs[k]);
    } else {
      var more := Join(cols[k + 1..], ", ");
      SliceCons(cols, k);
      SliceCons(ivs, k);
      JoinCons([cols[k]] + cols[k + 1..], ", ");
      ReadJoinedColumnsFrom(cols, exprs, names, ivs, k + 1);
      ColumnThenMore(cols[k], exprs[k], names[k], ivs[k], more, ivs[k + 1..]);
    }
  }

  lemma ColumnAlone(col: string, expr: string, name: string, iv: Span)
    requires ColumnOver(col, expr, name, iv)
    ensures ReadColumns(col) == Some([iv])
  {
    ReadColumnOfParts(iv, expr, name, "");
    assert col + "" == col;
  }

  lemma ColumnThenMore(col: string, expr: string, name: string, iv: Span, more: string, ivs: seq<Span>)
    requires ColumnOver(col, expr, name, iv)
    requires ReadColumns(more) == Some(ivs) && |ivs| > 0
    ensures ReadColumns(col + (", " + more)) == Some([iv] + ivs)
  {
    ReadColumnOfParts(iv, expr, name, ", " + more);
    assert col + (", " + more) == expr + ['"'] + name + ['"'] + (", " + more);
    ReadColumnsCons(iv, col, more, ivs);
  }

  lemma ReadColumnsCons(iv: Span, col: string, more: string, ivs: seq<Span>)
    requires ReadColumn(col + (", " + more)) == Some((iv, ", " + more))
    requires ReadColumns(more) == Some(ivs) && |ivs| > 0
    ensures ReadColumns(col + (", " + more)) == Some([iv] + ivs)
  {
    assert AfterPrefix(", " + more, ", ") == Some(more);
  }

  /**
   * The double-quoted names of the column fragment are the labels of the
   * kept intervals, one per interval, in order, whatever text follows.
   */
  lemma FragmentNames(kept: seq<Span>, tail: string)
    requires AllNonNegative(kept)
    ensures QuotedNames(Join(ColumnSqls(kept), ", ") + tail) == Labels(kept) + QuotedNames(tail)
  {
    var prefixes := seq(|kept|, i requires 0 <= i < |kept| => ColumnExpr(kept[i]));
    forall i | 0 <= i < |kept|
      ensures Encloses(ColumnSqls(kept)[i], prefixes[i], Labels(kept)[i])
    {
      ColumnSqlsAt(kept, i);
      LabelsAt(kept, i);
      ColumnTextClean(kept[i]);
    }
    TemplatePiecesPlain();
    QuotedNamesJoin(ColumnSqls(kept), prefixes, Labels(kept), ", ", tail);
  }

  lemma {:induction false} LabelsAt(kept: seq<Span>, i: nat)
    requires AllNonNegative(kept) && i < |kept|
    ensures Labels(kept)[i] == Label(kept[i])
  {
    if i > 0 {
      LabelsAt(kept[1..], i - 1);
    }
  }

  /** No placeholder appears in the column fragment: interval endpoints are inlined, never bound. */
  lemma FragmentHasNoPlaceholder(kept: seq<Span>)
    requires AllNonNegative(kept)
    ensures '?' !in Join(ColumnSqls(kept), ", ")
  {
    forall i | 0 <= i < |kept|
      ensures '?' !in ColumnSqls(kept)[i]
    {
      ColumnSqlsAt(kept, i);
      ColumnTextClean(kept[i]);
    }
    JoinAvoids(ColumnSqls(kept), ", ", '?');
  }

  lemma {:induction false} ColumnSqlsAt(kept: seq<Span>, i: nat)
    requires AllNonNegative(kept) && i < |kept|
    ensures ColumnSqls(kept)[i] == ColumnSql(kept[i])
  {
    if i > 0 {
      ColumnSqlsAt(kept[1..], i - 1);
    }
  }

  /** The fragment is empty exactly when no interval is kept. */
  lemma FragmentEmpty(kept: seq<Span>)
    requires AllNonNegative(kept)
    ensures Join(ColumnSqls(kept), ", ") == "" <==> |kept| == 0
  {
    forall i | 0 <= i < |kept|
      ensures |ColumnSqls(kept)[i]| > 0
    {
      ColumnSqlsAt(kept, i);
    }
    JoinEmpty(ColumnSqls(kept), ", ");
  }

  // ---------------------------------------------------------------------
  // Filter conditions and bind parameters
  // ---------------------------------------------------------------------

  /** A positional bind parameter. */
  datatype Param = TextParam(text: string) | IntParam(number: int)

  /** One conjunct of the WHERE clause and the parameters its placeholders take. */
  datatype Condition = Condition(sql: string, params: seq<Param>)

  /**
   * The conditions in their fixed order: the vehicle type when one is given,
   * then the distance range. The range is a two-element tuple, which Python
   * always treats as true, so its condition is always present.
   */
  function Conditions(req: ValidRequest): (conds: seq<Condition>)
    ensures |conds| == if req.vehicleType.Some? then 2 else 1
    ensures conds[|conds| - 1] == Condition(DistanceCondition, [IntParam(req.distanceRange.lo), IntParam(req.distanceRange.hi)])
  {
    var byType :=
      if req.vehicleType.Some? then [Condition(VehicleTypeCondition, [TextParam(req.vehicleType.value.Value())])]
      else [];
    byType + [Condition(DistanceCondition, [IntParam(req.distanceRange.lo), IntParam(req.distanceRange.hi)])]
  }

  function Sqls(conds: seq<Condition>): (sqls: seq<string>)
    ensures |sqls| == |conds|
  {
    if |conds| == 0 then [] else [conds[0].sql] + Sqls(conds[1..])
  }

  /** The parameter list, extended condition by condition. */
  function BindParams(conds: seq<Condition>): seq<Param>
  {
    if |conds| == 0 then [] else conds[0].params + BindParams(conds[1..])
  }

  /** `"WHERE " + " AND ".join(conditions)`, or nothing when there are no conditions. */
  function WhereClause(conds: seq<Condition>): (clause: string)
    ensures clause == "" <==> |conds| == 0
    ensures |conds| > 0 ==> "WHERE " <= clause
  {
    if |conds| == 0 then "" else "WHERE " + Join(Sqls(conds), " AND ")
  }

  /** A condition has as many placeholders as parameters. */
  predicate Aligned(c: Condition) {
    Occurrences(c.sql, '?') == |c.params|
  }

  /** Aligned conditions joined with `" AND "` have one placeholder per bind parameter. */
  lemma {:induction false} JoinedConditionsAligned(conds: seq<Condition>)
    requires forall i :: 0 <= i < |conds| ==> Aligned(conds[i])
    ensures Occurrences(Join(Sqls(conds), " AND "), '?') == |BindParams(conds)|
  {
    if |conds| == 1 {
      assert Join(Sqls(conds), " AND ") == conds[0].sql;
    } else if |conds| > 1 {
      assert Sqls(conds)[1..] == Sqls(conds[1..]);
      JoinedConditionsAligned(conds[1..]);
      var rest := Join(Sqls(conds[1..]), " AND ");
      OccurrencesConcat(conds[0].sql + " AND ", rest, '?');
      OccurrencesConcat(conds[0].sql, " AND ", '?');
      assert Occurrences(" AND ", '?') == 0;
    }
  }

  /** The clause of a list of aligned conditions has one placeholder per bind parameter. */
  lemma WhereClauseAligned(conds: seq<Condition>)
    requires forall i :: 0 <= i < |conds| ==> Aligned(conds[i])
    ensures Occurrences(WhereClause(conds), '?') == |BindParams(conds)|
  {
    if |conds| > 0 {
      JoinedConditionsAligned(conds);
      OccurrencesConcat("WHERE ", Join(Sqls(conds), " AND "), '?');
      assert Occurrences("WHERE ", '?') == 0;
    }
  }

  /** The conditions of a request are each aligned and carry no quote. */
  lemma ConditionsClean(req: ValidRequest)
    ensures forall i :: 0 <= i < |Conditions(req)| ==> Aligned(Conditions(req)[i])
    ensures '"' !in WhereClause(Conditions(req))
  {
    ConditionTextsAligned();
    var conds := Conditions(req);
    forall i | 0 <= i < |conds|
      ensures '"' !in Sqls(conds)[i]
    {
      SqlsAt(conds, i);
    }
    assert '"' !in " AND " && '"' !in "WHERE ";
    JoinAvoids(Sqls(conds), " AND ", '"');
  }

  lemma {:induction false} SqlsAt(conds: seq<Condition>, i: nat)
    requires i < |conds|
    ensures Sqls(conds)[i] == conds[i].sql
  {
    if i > 0 {
      SqlsAt(conds[1..], i - 1);
    }
  }

  // ---------------------------------------------------------------------
  // Statement
  // ---------------------------------------------------------------------

  /** The compiled statement and its ordered bind parameters. */
  datatype CompiledQuery = CompiledQuery(text: string, params: seq<Param>)

  /** `base_query.format(distance_columns=..., where_clause=...)`. */
  function FillTemplate(columns: string, where: string): string
  {
    SelectHead + columns + FromTable + where + GroupByTail
  }

  /**
   * The statement `detection_statistics` sends. It always selects
   * `vehicle_type` first from `vehicle_data` and groups by it; the bind
   * parameters are the vehicle type's value (when given) followed by the
   * two range bounds, and never an interval endpoint.
   */
  function CompileQuery(req: ValidRequest): (q: CompiledQuery)
    ensures req.vehicleType.Some? ==>
      q.params == [TextParam(req.vehicleType.value.Value()), IntParam(req.distanceRange.lo), IntParam(req.distanceRange.hi)]
    ensures req.vehicleType.None? ==>
      q.params == [IntParam(req.distanceRange.lo), IntParam(req.distanceRange.hi)]
    ensures SelectHead <= q.text
    ensures q.text[|q.text| - |GroupByTail|..] == GroupByTail
  {
    var conds := Conditions(req);
    var cols := FormatDistanceColumns(req);
    var where := WhereClause(conds);
    BindParamsOrder(req);
    Bracketed(SelectHead, cols, FromTable, where, GroupByTail);
    CompiledQuery(FillTemplate(cols, where), BindParams(conds))
  }

  /** The parameters in the order the conditions were added. */
  lemma BindParamsOrder(req: ValidRequest)
    ensures req.vehicleType.Some? ==>
      BindParams(Conditions(req)) == [TextParam(req.vehicleType.value.Value()), IntParam(req.distanceRange.lo), IntParam(req.distanceRange.hi)]
    ensures req.vehicleType.None? ==>
      BindParams(Conditions(req)) == [IntParam(req.distanceRange.lo), IntParam(req.distanceRange.hi)]
  {
    var conds := Conditions(req);
    assert BindParams(conds[|conds| - 1..]) == conds[|conds| - 1].params;
  }

  /** The statement has exactly one `?` placeholder per bind parameter. */
  lemma PlaceholdersMatchParams(req: ValidRequest)
    ensures Occurrences(CompileQuery(req).text, '?') == |CompileQuery(req).params|
  {
    var kept := KeptIntervals(req.distanceRange, req.distanceIntervals);
    KeptNonNegative(req);
    FragmentHasNoPlaceholder(kept);
    ConditionsClean(req);
    WhereClauseAligned(Conditions(req));
    TemplatePlaceholders(FormatDistanceColumns(req), WhereClause(Conditions(req)));
  }

  /** Placeholders of a filled template come only from the two inserted pieces. */
  lemma TemplatePlaceholders(cols: string, where: string)
    requires '?' !in cols
    ensures Occurrences(FillTemplate(cols, where), '?') == Occurrences(where, '?')
  {
    TemplatePiecesPlain();
    OccurrencesFramed(SelectHead, cols, FromTable, where, GroupByTail, '?');
    OccurrencesAbsent(cols, '?');
  }

  /**
   * The column names the statement declares, read off its text, are the
   * labels of the kept intervals in order, and each reads back as its
   * interval.
   */
  lemma StatementColumnNames(req: ValidRequest)
    ensures AllNonNegative(KeptIntervals(req.distanceRange, req.distanceIntervals))
    ensures QuotedNames(CompileQuery(req).text) == Labels(KeptIntervals(req.distanceRange, req.distanceIntervals))
    ensures forall i :: 0 <= i < |QuotedNames(CompileQuery(req).text)| ==>
      ParseLabel(QuotedNames(CompileQuery(req).text)[i]) == Some(KeptIntervals(req.distanceRange, req.distanceIntervals)[i])
  {
    var kept := KeptIntervals(req.distanceRange, req.distanceIntervals);
    KeptNonNegative(req);
    ConditionsClean(req);
    TemplateNames(kept, WhereClause(Conditions(req)));
    LabelsReadBack(kept);
  }

  /** The names of a filled template are the labels of its column fragment. */
  lemma TemplateNames(kept: seq<Span>, where: string)
    requires AllNonNegative(kept) && '"' !in where
    ensures QuotedNames(FillTemplate(Join(ColumnSqls(kept), ", "), where)) == Labels(kept)
  {
    var cols := Join(ColumnSqls(kept), ", ");
    TemplatePiecesPlain();
    QuotedNamesFramed(SelectHead, cols, FromTable, where, GroupByTail);
    var tail := FromTable + where + GroupByTail;
    FragmentNames(kept, tail);
    assert tail + "" == tail;
    QuotedNamesSkip(tail, "");
  }

  /**
   * The WHERE clause text: the vehicle-type test first when a type is
   * given, then the range test, so the k-th `?` is the k-th parameter.
   */
  lemma WhereClauseText(req: ValidRequest)
    ensures req.vehicleType.Some? ==>
      WhereClause(Conditions(req)) == "WHERE vehicle_type = ? AND distance BETWEEN ? AND ?"
    ensures req.vehicleType.None? ==>
      WhereClause(Conditions(req)) == "WHERE distance BETWEEN ? AND ?"
  {
    var conds := Conditions(req);
    if req.vehicleType.Some? {
      assert Sqls(conds) == [VehicleTypeCondition, DistanceCondition];
      assert Join(Sqls(conds), " AND ") == VehicleTypeCondition + " AND " + DistanceCondition;
      TypedWhereText();
    } else {
      assert Sqls(conds) == [DistanceCondition];
      RangeWhereText();
    }
  }

  lemma TypedWhereText()
    ensures "WHERE " + (VehicleTypeCondition + " AND " + DistanceCondition)
         == "WHERE vehicle_type = ? AND distance BETWEEN ? AND ?"
  {
    var typed := "vehicle_type = ?";
    var ranged := "distance BETWEEN ? AND ?";
    TypeConditionText();
    DistanceConditionText();
    assert "WHERE " + (typed + " AND " + ranged) == ("WHERE " + typed + " AND ") + ranged;
    TypedWherePrefix();
    TypedWhereWhole();
  }

  lemma TypeConditionText()
    ensures VehicleTypeCondition == "vehicle_type = ?"
  {
  }

  lemma DistanceConditionText()
    ensures DistanceCondition == "distance BETWEEN ? AND ?"
  {
  }

  lemma TypedWherePrefix()
    ensures "WHERE " + "vehicle_type = ?" + " AND " == "WHERE vehicle_type = ? AND "
  {
  }

  lemma TypedWhereWhole()
    ensures "WHERE vehicle_type = ? AND " + "distance BETWEEN ? AND ?"
         == "WHERE vehicle_type = ? AND distance BETWEEN ? AND ?"
  {
  }

  lemma RangeWhereText()
    ensures "WHERE " + DistanceCondition == "WHERE distance BETWEEN ? AND ?"
  {
  }

  /**
   * The whole statement: `base_query` with the column fragment and the
   * WHERE clause put in, reading `vehicle_data` and grouping by type.
   */
  lemma StatementText(req: ValidRequest)
    ensures CompileQuery(req).text
         == "\n        SELECT\n            vehicle_type,\n            "
          + FormatDistanceColumns(req)
          + "\n        FROM vehicle_data\n        "
          + (if req.vehicleType.Some? then "WHERE vehicle_type = ? AND distance BETWEEN ? AND ?"
             else "WHERE distance BETWEEN ? AND ?")
          + "\n        GROUP BY vehicle_type\n        "
  {
    WhereClauseText(req);
    TemplateText();
  }

  lemma TemplateText()
    ensures SelectHead == "\n        SELECT\n            vehicle_type,\n            "
    ensures FromTable == "\n        FROM vehicle_data\n        "
    ensures GroupByTail == "\n        GROUP BY vehicle_type\n        "
  {
    SelectHeadText();
    FromTableText();
    GroupByTailText();
  }

  lemma SelectHeadText()
    ensures SelectHead == "\n        SELECT\n            vehicle_type,\n            "
  {
    assert "\n        SELECT" + "\n            vehicle_type," == "\n        SELECT\n            vehicle_type,";
  }

  lemma FromTableText()
    ensures FromTable == "\n        FROM vehicle_data\n        "
  {
  }

  lemma GroupByTailText()
    ensures GroupByTail == "\n        GROUP BY vehicle_type\n        "
  {
  }


  /** The WHERE clause of a validated request is never empty: the range condition is always there. */
  lemma WhereClauseNeverEmpty(req: ValidRequest)
    ensures |Conditions(req)| > 0
    ensures WhereClause(Conditions(req))[..6] == "WHERE "
    ensures Conditions(req)[|Conditions(req)| - 1].sql == DistanceCondition
  {
  }

  /** Intervals outside the range leave no trace: the statement depends on the intervals only through the kept ones. */
  lemma DependsOnlyOnKeptIntervals(a: ValidRequest, b: ValidRequest)
    requires a.distanceRange == b.distanceRange && a.vehicleType == b.vehicleType
    requires KeptIntervals(a.distanceRange, a.distanceIntervals) == KeptIntervals(b.distanceRange, b.distanceIntervals)
    ensures CompileQuery(a) == CompileQuery(b)
  {
  }

  /**
   * When no interval is kept, the select list is `vehicle_type,` followed by
   * an empty fragment, exactly as the template fill produces it.
   */
  lemma EmptyProjection(req: ValidRequest)
    requires forall i :: 0 <= i < |req.distanceIntervals| ==> !Within(req.distanceIntervals[i], req.distanceRange)
    ensures CompileQuery(req).text == SelectHead + FromTable + WhereClause(Conditions(req)) + GroupByTail
    ensures QuotedNames(CompileQuery(req).text) == []
  {
    KeptNone(req.distanceRange, req.distanceIntervals);
    assert FormatDistanceColumns(req) == "";
    FillEmpty(WhereClause(Conditions(req)));
    StatementColumnNames(req);
  }

  lemma FillEmpty(where: string)
    ensures FillTemplate("", where) == SelectHead + FromTable + where + GroupByTail
  {
    var head := SelectHead;
    assert head + "" == head;
  }

  /** Nothing is kept when no interval lies within the range. */
  lemma {:induction false} KeptNone(range: Span, ivs: seq<Span>)
    requires forall i :: 0 <= i < |ivs| ==> !Within(ivs[i], range)
    ensures KeptIntervals(range, ivs) == []
  {
    if |ivs| > 0 {
      assert !Within(ivs[0], range);
      KeptNone(range, ivs[1..]);
    }
  }

  /** Only the middle part counts when nothing before or after it is kept. */
  lemma KeptMiddle(range: Span, before: seq<Span>, middle: seq<Span>, after: seq<Span>)
    requires KeptIntervals(range, before) == [] && KeptIntervals(range, after) == []
    ensures KeptIntervals(range, before + middle + after) == KeptIntervals(range, middle)
  {
    KeptIntervalsConcat(range, before + middle, after);
    KeptIntervalsConcat(range, before, middle);
  }

  /** `detection_statistics`: the compiled statement and parameters, executed and wrapped. */
  function DetectionStatistics<Row>(req: ValidRequest, execute: (string, seq<Param>) -> ExecOutcome<Row>)
    : (r: Result<QueryResult<Row>, QueryExecutionError>)
    ensures r.Success? <==> execute(CompileQuery(req).text, CompileQuery(req).params).Returned?
    ensures r.Success? ==>
      && r.value.data == execute(CompileQuery(req).text, CompileQuery(req).params).frame
      && Describes(r.value.metadata, r.value.data)
    ensures r.Failure? ==>
      r.error.message == FailurePrefix + execute(CompileQuery(req).text, CompileQuery(req).params).cause
  {
    var q := CompileQuery(req);
    ExecuteCustomQuery(execute, q.text, q.params)
  }
}
