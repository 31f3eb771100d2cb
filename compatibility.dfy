/**
 * `calculate_compatibility`: the combined number of two scores, its
 * percentage, and the description and keywords looked up for it.
 */
module Compatibility {
  import opened Wrappers
  import opened DigitalRoot
  import opened NameScore
  import opened DateScore

  /** `COMPATIBILITY_KEYWORDS`: keywords for the numbers 1 to 9. */
  function Keywords(n: int): Option<string>
  {
    match n
    case 1 => Some("Лидерство и инициатива")
    case 2 => Some("Гармония и партнерство")
    case 3 => Some("Творчество и общение")
    case 4 => Some("Стабильность и практичность")
    case 5 => Some("Свобода и перемены")
    case 6 => Some("Забота и ответственность")
    case 7 => Some("Мудрость и анализ")
    case 8 => Some("Успех и изобилие")
    case 9 => Some("Гуманизм и сострадание")
    case _ => None
  }

  /** `COMPATIBILITY_KEYWORDS.get(n, default)`. */
  function KeywordsOr(n: int, default: string): (s: string)
    ensures 1 <= n <= 9 ==> s == Keywords(n).value && s != FallbackKeywords
    ensures !(1 <= n <= 9) ==> s == default
  {
    match Keywords(n)
    case Some(k) => k
    case None => default
  }

  /** The keywords of a number the table does not hold. */
  const FallbackKeywords: string := "Уникальная энергия"

  /**
   * The descriptions of `calculate_compatibility`, one per number 1 to 9,
   * and the fallback "Особенная совместимость!" for any other number; their
   * wording is not modelled.
   */
  datatype Description = Described(number: nat) | SpecialCompatibility

  /** `compatibility_descriptions.get(number, fallback)`. */
  function DescriptionOf(number: nat): Description
  {
    if 1 <= number <= 9 then Described(number) else SpecialCompatibility
  }

  /** `(number * 11) % 100`, raised by 30 when below 30. */
  function Percentage(number: nat): nat
  {
    var p := (number * 11) % 100;
    if p < 30 then p + 30 else p
  }

  /** The dictionary `calculate_compatibility` returns. */
  datatype Compatibility = Compatibility(number: nat, percentage: nat, description: Description, keywords: string)

  function CalculateCompatibility(number1: nat, number2: nat): (c: Compatibility)
    ensures c.number == Reduce(number1 + number2) && c.number <= 9
    ensures 30 <= c.percentage <= 99
    ensures c.description == SpecialCompatibility <==> number1 + number2 == 0
    ensures c.keywords == FallbackKeywords <==> number1 + number2 == 0
  {
    var number := Reduce(number1 + number2);
    ReduceRange(number1 + number2);
    PercentageTable(number);
    Compatibility(number, Percentage(number), DescriptionOf(number), KeywordsOr(number, FallbackKeywords))
  }

  /**
   * For the numbers the reducer can produce, the percentage is 11 times
   * the number, plus 30 for 0, 1 and 2: 30, 41, 52, 33, 44, ..., 99.
   */
  lemma PercentageTable(number: nat)
    requires number <= 9
    ensures Percentage(number) == 11 * number + (if number <= 2 then 30 else 0)
    ensures 30 <= Percentage(number) <= 99
  {
    assert (number * 11) % 100 == number * 11;
  }

  /** Different numbers get different percentages, so the percentage tells the number. */
  lemma PercentageInjective(a: nat, b: nat)
    requires a <= 9 && b <= 9 && Percentage(a) == Percentage(b)
    ensures a == b
  {
    PercentageTable(a);
    PercentageTable(b);
  }

  /** The table has keywords exactly for 1 to 9, none equal to the fallback. */
  lemma KeywordsTable(n: int)
    ensures Keywords(n).Some? <==> 1 <= n <= 9
    ensures Keywords(n).Some? ==> Keywords(n).value != FallbackKeywords
  {
  }

  /** The order of the two scores does not matter. */
  lemma Symmetric(number1: nat, number2: nat)
    ensures CalculateCompatibility(number1, number2) == CalculateCompatibility(number2, number1)
  {
    assert number1 + number2 == number2 + number1;
  }

  /** The combined number is the digital root of the sum of the scores. */
  lemma CombinedNumber(number1: nat, number2: nat)
    ensures CalculateCompatibility(number1, number2).number == Root(number1 + number2)
  {
    ReduceIsRoot(number1 + number2);
  }

  /**
   * The fallback is reachable from names: two names get the fallback
   * description and keywords exactly when neither has a letter of the table.
   */
  lemma NamesFallback(name1: string, name2: string)
    ensures var c := CalculateCompatibility(NameNumber(name1), NameNumber(name2));
      (c.description == SpecialCompatibility <==> !HasMappedLetter(name1) && !HasMappedLetter(name2))
      && (c.keywords == FallbackKeywords <==> !HasMappedLetter(name1) && !HasMappedLetter(name2))
  {
    NameNumberZero(name1);
    NameNumberZero(name2);
  }

  /** Dates always score 1 to 9, so two dates never get the fallback. */
  lemma DatesNeverFallback(date1: string, date2: string)
    requires DateNumber(date1).Some? && DateNumber(date2).Some?
    ensures var c := CalculateCompatibility(DateNumber(date1).value, DateNumber(date2).value);
      c.description.Described? && c.keywords != FallbackKeywords && c.percentage != 30
  {
    DateNumberRange(date1);
    DateNumberRange(date2);
    PositiveScores(DateNumber(date1).value, DateNumber(date2).value);
  }

  /** Two positive scores reduce to 1 to 9, which the tables describe. */
  lemma PositiveScores(number1: nat, number2: nat)
    requires 1 <= number1 && 1 <= number2
    ensures var c := CalculateCompatibility(number1, number2);
      c.description.Described? && c.keywords != FallbackKeywords && c.percentage != 30
  {
    var n := Reduce(number1 + number2);
    ReduceRange(number1 + number2);
    PercentageTable(n);
  }
}
