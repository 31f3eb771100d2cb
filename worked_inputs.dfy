/** Worked inputs of `handle_message` and of the scorers behind it. */
module WorkedInputs {
  import opened Wrappers
  import opened DigitalRoot
  import opened Letters
  import opened NameScore
  import opened DateScore
  import opened Compatibility
  import opened Conversation

  /** One step of the letter sum, for working out a name's score. */
  lemma LetterSumStep(u: string, i: nat)
    requires i < |u|
    ensures LetterSum(u[..i + 1]) == LetterSum(u[..i]) + LetterValue(u[i])
  {
    assert u[..i + 1][..i] == u[..i];
  }

  /** The letter sum of a four-character name: the values of its four upper-cased letters. */
  lemma FourLetters(w: string)
    requires |w| == 4
    ensures LetterSum(UpperString(w))
      == LetterValue(Upper(w[0])) + LetterValue(Upper(w[1])) + LetterValue(Upper(w[2])) + LetterValue(Upper(w[3]))
  {
    var u := UpperString(w);
    var v0, v1, v2, v3 := LetterValue(u[0]), LetterValue(u[1]), LetterValue(u[2]), LetterValue(u[3]);
    assert LetterSum(u[..1]) == v0 by {
      assert u[..0] == [];
      LetterSumStep(u, 0);
    }
    assert LetterSum(u[..2]) == v0 + v1 by {
      LetterSumStep(u, 1);
    }
    assert LetterSum(u[..3]) == v0 + v1 + v2 by {
      LetterSumStep(u, 2);
    }
    assert LetterSum(u) == v0 + v1 + v2 + v3 by {
      LetterSumStep(u, 3);
      assert u[..4] == u;
    }
  }

  lemma AnnaScore()
    ensures NameNumber("Anna") == 3
  {
    var w := "Anna";
    assert LetterSum(UpperString(w)) == 12 by {
      assert Upper(w[0]) == 'A' && Upper(w[1]) == 'N' && Upper(w[2]) == 'N' && Upper(w[3]) == 'A';
      assert LetterValue('A') == 1 && LetterValue('N') == 5;
      FourLetters(w);
    }
    assert Reduce(12) == 3 by { ReduceIsRoot(12); }
  }

  lemma JohnScore()
    ensures NameNumber("John") == 2
  {
    var w := "John";
    assert LetterSum(UpperString(w)) == 20 by {
      assert Upper(w[0]) == 'J' && Upper(w[1]) == 'O' && Upper(w[2]) == 'H' && Upper(w[3]) == 'N';
      assert LetterValue('J') == 1 && LetterValue('O') == 6 && LetterValue('H') == 8 && LetterValue('N') == 5;
      FourLetters(w);
    }
    assert Reduce(20) == 2 by { ReduceIsRoot(20); }
  }

  /** The whole result of `calculate_compatibility` for two scores whose combined number is known. */
  lemma CompatibilityOf(number1: nat, number2: nat, number: nat)
    requires number <= 9 && Root(number1 + number2) == number
    ensures CalculateCompatibility(number1, number2)
         == Compatibility(number, 11 * number + (if number <= 2 then 30 else 0),
                          DescriptionOf(number), KeywordsOr(number, FallbackKeywords))
  {
    ReduceIsRoot(number1 + number2);
    PercentageTable(number);
  }

  /** What the reply to a names text says, once the two names and their scores are known. */
  lemma NamesOutcome(text: string, w1: string, w2: string, number1: nat, number2: nat, c: Compatibility)
    requires Respond(Some(Names), text) == (ScoreNames(w1, w2), None)
    requires NameNumber(w1) == number1 && NameNumber(w2) == number2
    requires CalculateCompatibility(number1, number2) == c
    ensures var (reply, next) := Respond(Some(Names), text);
      next == None && reply == ScoreNames(w1, w2) && reply.NamesResult?
      && reply.number1 == number1 && reply.number2 == number2 && reply.compatibility == c
  {
  }

  /** What the reply to two dates typed with a space between them says, once their scores are known. */
  lemma DatesOutcomeOf(w1: string, w2: string, number1: nat, number2: nat, c: Compatibility)
    requires w1 != [] && w2 != [] && Plain(w1) && Plain(w2)
    requires DateNumber(w1) == Some(number1) && DateNumber(w2) == Some(number2)
    requires CalculateCompatibility(number1, number2) == c
    ensures var (reply, next) := Respond(Some(Dates), w1 + " " + w2);
      next == None && reply == ScoreDates(w1, w2) && reply.DatesResult?
      && reply.number1 == number1 && reply.number2 == number2 && reply.compatibility == c
  {
    TwoDates(w1, w2);
    assert ScoreDates(w1, w2)
        == DatesResult(w1, w2, number1, KeywordsOr(number1, ""), number2, KeywordsOr(number2, ""), c);
  }

  /** "Anna John": 3 and 2, combined 5 at 55 %, and the names mode is left. */
  lemma AnnaJohn()
    ensures var (reply, next) := Respond(Some(Names), "Anna John");
      next == None && reply == ScoreNames("Anna", "John")
      && reply.number1 == 3 && reply.number2 == 2
      && reply.compatibility.number == 5 && reply.compatibility.percentage == 55
      && reply.compatibility.description == Described(5)
  {
    var w1, w2 := "Anna", "John";
    assert w1 + " " + w2 == "Anna John";
    var c := Compatibility(5, 55, Described(5), KeywordsOr(5, FallbackKeywords));
    assert CalculateCompatibility(3, 2) == c by { CompatibilityOf(3, 2, 5); }
    assert Respond(Some(Names), w1 + " " + w2) == (ScoreNames(w1, w2), None) by {
      assert Plain(w1) && Plain(w2);
      TwoWords(w1, w2);
    }
    assert NameNumber(w1) == 3 by { AnnaScore(); }
    assert NameNumber(w2) == 2 by { JohnScore(); }
    NamesOutcome(w1 + " " + w2, w1, w2, 3, 2, c);
  }

  /** "Anna,": the empty second name is accepted and scores 0, so the combined number is Anna's 3, at 33 %. */
  lemma AnnaComma()
    ensures var (reply, next) := Respond(Some(Names), "Anna,");
      next == None && reply == ScoreNames("Anna", "")
      && reply.number1 == 3 && reply.number2 == 0
      && reply.compatibility.number == 3 && reply.compatibility.percentage == 33
  {
    var w := "Anna";
    assert w + "," == "Anna,";
    var c := Compatibility(3, 33, Described(3), KeywordsOr(3, FallbackKeywords));
    assert CalculateCompatibility(3, 0) == c by { CompatibilityOf(3, 0, 3); }
    assert Respond(Some(Names), w + ",") == (ScoreNames(w, ""), None) && NameNumber("") == 0 by {
      assert Plain(w);
      TrailingComma(w);
    }
    assert NameNumber(w) == 3 by { AnnaScore(); }
    NamesOutcome(w + ",", w, "", 3, 0, c);
  }

  lemma AnnaCyrillicScore()
    ensures NameNumber("Анна") == 5
  {
    var w := "Анна";
    assert LetterSum(UpperString(w)) == 14 by {
      assert Upper(w[0]) == 'А' && Upper(w[1]) == 'Н' && Upper(w[2]) == 'Н' && Upper(w[3]) == 'А';
      assert LetterValue('А') == 1 && LetterValue('Н') == 6;
      FourLetters(w);
    }
    assert Reduce(14) == 5 by { ReduceIsRoot(14); }
  }

  lemma IvanScore()
    ensures NameNumber("Иван") == 2
  {
    var w := "Иван";
    assert LetterSum(UpperString(w)) == 11 by {
      assert Upper(w[0]) == 'И' && Upper(w[1]) == 'В' && Upper(w[2]) == 'А' && Upper(w[3]) == 'Н';
      assert LetterValue('И') == 1 && LetterValue('В') == 3 && LetterValue('А') == 1 && LetterValue('Н') == 6;
      FourLetters(w);
    }
    assert Reduce(11) == 2 by { ReduceIsRoot(11); }
  }

  /** "Анна, Иван": the space after the comma is stripped; 5 and 2, combined 7 at 77 %. */
  lemma AnnaIvanComma()
    ensures var (reply, next) := Respond(Some(Names), "Анна, Иван");
      next == None && reply == ScoreNames("Анна", "Иван")
      && reply.number1 == 5 && reply.number2 == 2
      && reply.compatibility.number == 7 && reply.compatibility.percentage == 77
      && reply.compatibility.description == Described(7)
  {
    var w1, w2 := "Анна", "Иван";
    assert w1 + ", " + w2 == "Анна, Иван";
    var c := Compatibility(7, 77, Described(7), KeywordsOr(7, FallbackKeywords));
    assert CalculateCompatibility(5, 2) == c by { CompatibilityOf(5, 2, 7); }
    assert Respond(Some(Names), w1 + ", " + w2) == (ScoreNames(w1, w2), None) by {
      assert Plain(w1) && Plain(w2);
      CommaSpaced(w1, w2);
    }
    assert NameNumber(w1) == 5 by { AnnaCyrillicScore(); }
    assert NameNumber(w2) == 2 by { IvanScore(); }
    NamesOutcome(w1 + ", " + w2, w1, w2, 5, 2, c);
  }

  /**
   * One user's session: `/name`, then a single word, which is answered with
   * a new prompt, then "Anna John", after which nothing is awaited any more.
   */
  method NameSession() returns (user: UserData, retry: Reply, result: Reply)
    ensures retry == EnterTwoNames
    ensures result.NamesResult? && result.number1 == 3 && result.number2 == 2
    ensures result.compatibility.number == 5 && result.compatibility.percentage == 55
    ensures user.awaiting == None
  {
    user := new UserData();
    user.NameCommand();
    OnlyOneWord();
    retry := user.HandleMessage("OnlyOneWord");
    AnnaJohn();
    result := user.HandleMessage("Anna John");
  }

  /** "OnlyOneWord" is one item: the user is asked again for two names. */
  lemma OnlyOneWord()
    ensures Respond(Some(Names), "OnlyOneWord") == (EnterTwoNames, Some(Names))
  {
    OneWord(Names, "OnlyOneWord");
  }

  /** The same birthday written in two of the formats: 6 and 6, combined 3 at 33 %. */
  lemma SameBirthday()
    ensures var (reply, next) := Respond(Some(Dates), "15.08.1990 1990-08-15");
      next == None && reply == ScoreDates("15.08.1990", "1990-08-15") && reply.DatesResult?
      && reply.number1 == 6 && reply.number2 == 6
      && reply.compatibility.number == 3 && reply.compatibility.percentage == 33
  {
    var w1, w2 := "15.08.1990", "1990-08-15";
    assert w1 + " " + w2 == "15.08.1990 1990-08-15";
    var c := Compatibility(3, 33, Described(3), KeywordsOr(3, FallbackKeywords));
    assert CalculateCompatibility(6, 6) == c by { CompatibilityOf(6, 6, 3); }
    assert DateNumber(w1) == Some(6) && DateNumber(w2) == Some(6) by { HelpExamples(); }
    assert Plain(w1) && Plain(w2) by {
      WrittenAugust15();
      WrittenDatePlain(Date(15, 8, 1990), 0);
      WrittenDatePlain(Date(15, 8, 1990), 3);
    }
    DatesOutcomeOf(w1, w2, 6, 6, c);
  }

  /** A written date holds digits and one of `.`, `/`, `-`: no whitespace and no item separator. */
  lemma WrittenDatePlain(d: Date, k: nat)
    requires k < 4
    ensures Plain(FormatDate(d, k))
  {
    FormatDateShape(d, k);
  }

  /** "not-a-date" next to a date is a bad format, and the dates mode stays for a retry. */
  lemma NotADatePair()
    ensures Respond(Some(Dates), "15.08.1990 not-a-date") == (BadDateFormat, Some(Dates))
  {
    var w1, w2 := "15.08.1990", "not-a-date";
    assert w1 + " " + w2 == "15.08.1990 not-a-date";
    assert Plain(w1) && Plain(w2);
    TwoDates(w1, w2);
    NotADate();
  }
}
