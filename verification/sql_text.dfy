/**
 * The fixed SQL text the repository splices values into, and the facts the
 * compiler needs about it: which pieces carry placeholders, and that none
 * carries a double quote.
 */
module SqlText {
  import opened Text

  /** The fixed text of the percentage expression, split where the endpoints go. */
  const RoundOpen: string := "ROUND(100.0 * SUM("
  const CaseWhen: string := "CASE WHEN distance BETWEEN "
  const BetweenAnd: string := " AND "
  const SumClose: string := " THEN detection::INTEGER END)"
  const CountOpen: string := " / NULLIF(COUNT("
  const CountClose: string := " THEN 1 END), 0), 2)"
  const AliasKeyword: string := " AS "

  /** The two filter conditions, each with its placeholders. */
  const Placeholder: string := "?"
  const TypeColumn: string := "vehicle_type = "
  const DistanceColumn: string := "distance BETWEEN "
  const VehicleTypeCondition: string := TypeColumn + Placeholder
  const DistanceCondition: string := DistanceColumn + Placeholder + BetweenAnd + Placeholder

  /** The fixed parts of `base_query`, around `{distance_columns}` and `{where_clause}`. */
  const SelectHead: string := "\n        SELECT" + "\n            vehicle_type," + "\n            "
  const FromTable: string := "\n        FROM vehicle_data" + "\n        "
  const GroupByTail: string := "\n        GROUP BY vehicle_type" + "\n        "

  /** Text free of double quotes and of placeholders. */
  predicate Plain(s: string) {
    '"' !in s && '?' !in s
  }

  lemma ExprPiecesPlain()
    ensures Plain(RoundOpen) && Plain(CaseWhen) && Plain(BetweenAnd) && Plain(SumClose)
    ensures Plain(CountOpen) && Plain(CountClose) && Plain(AliasKeyword)
  {
    RoundOpenPlain();
    CaseWhenPlain();
    BetweenAndPlain();
    SumClosePlain();
    CountOpenPlain();
    CountClosePlain();
    AliasKeywordPlain();
  }

  lemma RoundOpenPlain()
    ensures Plain(RoundOpen)
  {
  }

  lemma CaseWhenPlain()
    ensures Plain(CaseWhen)
  {
  }

  lemma BetweenAndPlain()
    ensures Plain(BetweenAnd)
  {
  }

  lemma SumClosePlain()
    ensures Plain(SumClose)
  {
  }

  lemma CountOpenPlain()
    ensures Plain(CountOpen)
  {
  }

  lemma CountClosePlain()
    ensures Plain(CountClose)
  {
  }

  lemma AliasKeywordPlain()
    ensures Plain(AliasKeyword)
  {
  }

  /** The vehicle-type condition has one placeholder, the range condition two; neither has a quote. */
  lemma ConditionTextsAligned()
    ensures Occurrences(VehicleTypeCondition, '?') == 1 && '"' !in VehicleTypeCondition
    ensures Occurrences(DistanceCondition, '?') == 2 && '"' !in DistanceCondition
  {
    VehicleTypeConditionAligned();
    DistanceConditionAligned();
  }

  lemma VehicleTypeConditionAligned()
    ensures Occurrences(VehicleTypeCondition, '?') == 1 && '"' !in VehicleTypeCondition
  {
    TypeColumnPlain();
    OccurrencesAbsent(TypeColumn, '?');
    OccurrencesConcat(TypeColumn, Placeholder, '?');
    OccurrencesSingle('?');
  }

  lemma DistanceConditionAligned()
    ensures Occurrences(DistanceCondition, '?') == 2 && '"' !in DistanceCondition
  {
    DistanceColumnPlain();
    BetweenAndPlain();
    TwoMarks(DistanceColumn, BetweenAnd, '?', '"');
  }

  lemma TypeColumnPlain()
    ensures Plain(TypeColumn)
  {
  }

  lemma DistanceColumnPlain()
    ensures Plain(DistanceColumn)
  {
  }

  /** The template pieces carry neither quotes nor placeholders. */
  lemma TemplatePiecesPlain()
    ensures Plain(SelectHead) && Plain(FromTable) && Plain(GroupByTail)
    ensures Plain("WHERE ") && Plain(", ")
  {
    SelectHeadPlain();
    FromTablePlain();
    GroupByTailPlain();
    SeparatorsPlain();
  }

  lemma SelectHeadPlain()
    ensures Plain(SelectHead)
  {
  }

  lemma FromTablePlain()
    ensures Plain(FromTable)
  {
  }

  lemma GroupByTailPlain()
    ensures Plain(GroupByTail)
  {
  }

  lemma SeparatorsPlain()
    ensures Plain("WHERE ") && Plain(", ")
  {
  }
}
