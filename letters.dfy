/**
 * The letter table `NUMEROLOGY_VALUES` and the part of `str.upper()` that
 * matters to it.
 */
module Letters {
  import opened Wrappers

  /**
   * `NUMEROLOGY_VALUES`: the upper-case Cyrillic and Latin letters and their
   * digits 1..9; `None` for a character that is not a key.
   */
  function NumerologyValues(c: char): Option<nat>
  {
    match c
    case 'А' => Some(1) case 'Б' => Some(2) case 'В' => Some(3) case 'Г' => Some(4) case 'Д' => Some(5) case 'Е' => Some(6) case 'Ё' => Some(7) case 'Ж' => Some(8) case 'З' => Some(9)
    case 'И' => Some(1) case 'Й' => Some(2) case 'К' => Some(3) case 'Л' => Some(4) case 'М' => Some(5) case 'Н' => Some(6) case 'О' => Some(7) case 'П' => Some(8) case 'Р' => Some(9)
    case 'С' => Some(1) case 'Т' => Some(2) case 'У' => Some(3) case 'Ф' => Some(4) case 'Х' => Some(5) case 'Ц' => Some(6) case 'Ч' => Some(7) case 'Ш' => Some(8) case 'Щ' => Some(9)
    case 'Ъ' => Some(1) case 'Ы' => Some(2) case 'Ь' => Some(3) case 'Э' => Some(4) case 'Ю' => Some(5) case 'Я' => Some(6)
    case 'A' => Some(1) case 'B' => Some(2) case 'C' => Some(3) case 'D' => Some(4) case 'E' => Some(5) case 'F' => Some(6) case 'G' => Some(7) case 'H' => Some(8) case 'I' => Some(9)
    case 'J' => Some(1) case 'K' => Some(2) case 'L' => Some(3) case 'M' => Some(4) case 'N' => Some(5) case 'O' => Some(6) case 'P' => Some(7) case 'Q' => Some(8) case 'R' => Some(9)
    case 'S' => Some(1) case 'T' => Some(2) case 'U' => Some(3) case 'V' => Some(4) case 'W' => Some(5) case 'X' => Some(6) case 'Y' => Some(7) case 'Z' => Some(8)
    case _ => None
  }

  predicate IsLatinLower(c: char) { 'a' <= c <= 'z' }
  predicate IsCyrillicLower(c: char) { 'а' <= c <= 'я' }

  /**
   * Upper-casing of one character, for the lower-case counterparts of the
   * table's letters: a..z, а..я (both 32 code points below their capitals)
   * and ё; every other character is left as it is.
   */
  function Upper(c: char): char
  {
    if IsLatinLower(c) || IsCyrillicLower(c) then (c as int - 32) as char
    else if c == 'ё' then 'Ё'
    else c
  }

  /** The letter of the Latin alphabet or of the 33-letter Russian alphabet. */
  predicate IsTableLetter(c: char)
  {
    'A' <= c <= 'Z' || 'А' <= c <= 'Я' || c == 'Ё'
  }

  /** Zero-based place of a capital in its alphabet; Ё comes right after Е. */
  function AlphabetIndex(c: char): nat
    requires IsTableLetter(c)
  {
    if 'A' <= c <= 'Z' then c as nat - 'A' as nat
    else if c == 'Ё' then 6
    else if c <= 'Е' then c as nat - 'А' as nat
    else c as nat - 'А' as nat + 1
  }

  /**
   * The table is keyed by exactly the capitals of the two alphabets, and
   * gives each the digit root of its place in the alphabet (1..9 repeating).
   */
  lemma TableIsAlphabetPosition(c: char)
    ensures NumerologyValues(c).Some? <==> IsTableLetter(c)
    ensures IsTableLetter(c) ==> NumerologyValues(c) == Some(1 + AlphabetIndex(c) % 9)
  {
  }

  /** The digit a character adds to a name's total: its table value, or 0. */
  function LetterValue(c: char): (v: nat)
    ensures v <= 9
    ensures v == 0 <==> NumerologyValues(c).None?
  {
    match NumerologyValues(c)
    case Some(d) => d
    case None => 0
  }

  lemma UpperIdempotent(c: char)
    ensures Upper(Upper(c)) == Upper(c)
  {
  }

  /** Upper-casing maps every lower-case letter of both alphabets onto a key. */
  lemma LowerLettersAreKeys(c: char)
    ensures IsLatinLower(c) || IsCyrillicLower(c) || c == 'ё' ==> IsTableLetter(Upper(c))
    ensures IsTableLetter(c) ==> Upper(c) == c
  {
  }
}
