/**
 * The per-user conversation of the bot: which input it is waiting for
 * (`context.user_data['awaiting']`), how the commands and buttons set it,
 * and how `handle_message` answers a text and updates it.
 */
module Conversation {
  import opened Wrappers
  import opened DigitalRoot
  import opened NameScore
  import opened DateScore
  import opened Compatibility
  import opened Splitting
  import opened Letters

  /** The two values `awaiting` takes: 'names' and 'dates'. */
  datatype Mode = Names | Dates

  /** The kinds of answer `handle_message` sends; the Markdown wording is not modelled. */
  datatype Reply =
    | ChooseOption
    | EnterTwoNames
    | EnterTwoDates
    | BadDateFormat
    | NamesResult(name1: string, name2: string, number1: nat, keywords1: string,
                  number2: nat, keywords2: string, compatibility: Compatibility)
    | DatesResult(date1: string, date2: string, number1: nat, keywords1: string,
                  number2: nat, keywords2: string, compatibility: Compatibility)

  predicate IsResult(r: Reply)
  {
    r.NamesResult? || r.DatesResult?
  }

  /** The result for two names: their scores, the keywords of each, and their compatibility. */
  function ScoreNames(name1: string, name2: string): Reply
  {
    var number1, number2 := NameNumber(name1), NameNumber(name2);
    NamesResult(name1, name2, number1, KeywordsOr(number1, ""), number2, KeywordsOr(number2, ""),
                CalculateCompatibility(number1, number2))
  }

  /** The result for two dates, or a bad format when either is not one. */
  function ScoreDates(date1: string, date2: string): Reply
  {
    match (DateNumber(date1), DateNumber(date2))
    case (Some(number1), Some(number2)) =>
      DatesResult(date1, date2, number1, KeywordsOr(number1, ""), number2, KeywordsOr(number2, ""),
                  CalculateCompatibility(number1, number2))
    case _ => BadDateFormat
  }

  /**
   * What `handle_message` answers in state `awaiting` to `text`, and the
   * state it leaves.
   */
  function Respond(awaiting: Option<Mode>, text: string): (Reply, Option<Mode>)
  {
    var message := Strip(text);
    match awaiting
    case None => (ChooseOption, None)
    case Some(Names) => RespondNames(message)
    case Some(Dates) => RespondDates(message)
  }

  /** The names branch of `handle_message`, on the stripped text. */
  function RespondNames(message: string): (Reply, Option<Mode>)
  {
    var names := SplitRule(message);
    if |names| < 2 then (EnterTwoNames, Some(Names))
    else (ScoreNames(Strip(names[0]), Strip(names[1])), None)
  }

  /** The dates branch of `handle_message`, on the stripped text. */
  function RespondDates(message: string): (Reply, Option<Mode>)
  {
    var dates := SplitRule(message);
    if |dates| < 2 then (EnterTwoDates, Some(Dates))
    else
      var reply := ScoreDates(Strip(dates[0]), Strip(dates[1]));
      (reply, if reply.DatesResult? then None else Some(Dates))
  }

  /** The entry `awaiting` of one user's `context.user_data`. */
  class UserData {
    var awaiting: Option<Mode>

    /** A user who has not chosen anything yet. */
    constructor()
      ensures awaiting == None
    {
      awaiting := None;
    }

    /** `/name`: wait for two names. */
    method NameCommand()
      modifies this
      ensures awaiting == Some(Names)
    {
      awaiting := Some(Names);
    }

    /** `/date`: wait for two dates. */
    method DateCommand()
      modifies this
      ensures awaiting == Some(Dates)
    {
      awaiting := Some(Dates);
    }

    /** `button_handler`: the name and date buttons set the mode; `help` and anything else leave it. */
    method ButtonPressed(data: string)
      modifies this
      ensures data == "name_comp" ==> awaiting == Some(Names)
      ensures data == "date_comp" ==> awaiting == Some(Dates)
      ensures data != "name_comp" && data != "date_comp" ==> awaiting == old(awaiting)
    {
      if data == "name_comp" {
        awaiting := Some(Names);
      } else if data == "date_comp" {
        awaiting := Some(Dates);
      }
    }

    /** `handle_message`: answer one text and update `awaiting`. */
    method HandleMessage(text: string) returns (reply: Reply)
      modifies this
      ensures (reply, awaiting) == Respond(old(awaiting), text)
    {
      var userMessage := Strip(text);
      match awaiting {
        case None => reply := ChooseOption;
        case Some(Names) => reply := AnswerNames(userMessage);
        case Some(Dates) => reply := AnswerDates(userMessage);
      }
    }

    /**
     * The names branch of `handle_message`: split the text, ask again for
     * fewer than two pieces, otherwise score the first two pieces, stripped,
     * and only then drop `awaiting`.
     */
    method AnswerNames(message: string) returns (reply: Reply)
      requires awaiting == Some(Names)
      modifies this
      ensures (reply, awaiting) == RespondNames(message)
    {
      var names := SplitItems(message);
      if |names| < 2 {
        reply := EnterTwoNames;
        return;
      }
      var name1 := Strip(names[0]);
      var name2 := Strip(names[1]);
      var number1 := CalculateNameNumber(name1);
      var number2 := CalculateNameNumber(name2);
      var compatibility := CalculateCompatibility(number1, number2);
      reply := NamesResult(name1, name2, number1, KeywordsOr(number1, ""), number2, KeywordsOr(number2, ""),
                           compatibility);
      awaiting := None;
    }

    /**
     * The dates branch of `handle_message`: split the text, ask again for
     * fewer than two pieces, reject the pair when either stripped piece is no
     * date, otherwise score the two dates and only then drop `awaiting`.
     */
    method AnswerDates(message: string) returns (reply: Reply)
      requires awaiting == Some(Dates)
      modifies this
      ensures (reply, awaiting) == RespondDates(message)
    {
      var dates := SplitItems(message);
      if |dates| < 2 {
        reply := EnterTwoDates;
        return;
      }
      var date1 := Strip(dates[0]);
      var date2 := Strip(dates[1]);
      var number1 := CalculateBirthdateNumber(date1);
      var number2 := CalculateBirthdateNumber(date2);
      if number1.None? || number2.None? {
        reply := BadDateFormat;
        return;
      }
      var compatibility := CalculateCompatibility(number1.value, number2.value);
      reply := DatesResult(date1, date2, number1.value, KeywordsOr(number1.value, ""),
                           number2.value, KeywordsOr(number2.value, ""), compatibility);
      awaiting := None;
    }
  }

  // ----- Properties of the state machine -----

  /** The names branch either asks again and keeps the mode, or gives a result and leaves it. */
  lemma NamesBranch(message: string)
    ensures var (reply, next) := RespondNames(message);
      (reply.NamesResult? && next == None) || (reply == EnterTwoNames && next == Some(Names))
  {
  }

  /** The dates branch either asks again or rejects the dates and keeps the mode, or gives a result and leaves it. */
  lemma DatesBranch(message: string)
    ensures var (reply, next) := RespondDates(message);
      (reply.DatesResult? && next == None)
      || ((reply == EnterTwoDates || reply == BadDateFormat) && next == Some(Dates))
  {
    var dates := SplitRule(message);
    if |dates| >= 2 {
      var reply := ScoreDates(Strip(dates[0]), Strip(dates[1]));
      assert reply.DatesResult? || reply == BadDateFormat;
    }
  }

  /** The state is cleared exactly by a result; every other answer keeps it, so the user can retry. */
  lemma ClearedOnlyByResult(awaiting: Option<Mode>, text: string)
    ensures var (reply, next) := Respond(awaiting, text);
      (next == None <==> awaiting == None || IsResult(reply))
      && (!IsResult(reply) ==> next == awaiting)
  {
    match awaiting
    case None =>
    case Some(Names) => NamesBranch(Strip(text));
    case Some(Dates) => DatesBranch(Strip(text));
  }

  /** Without a chosen mode nothing is calculated; the user is asked to choose. */
  lemma NoModeNoCalculation(text: string)
    ensures Respond(None, text) == (ChooseOption, None)
  {
  }

  /** Each answer belongs to the mode the user chose. */
  lemma ReplyFitsMode(awaiting: Option<Mode>, text: string)
    ensures var reply := Respond(awaiting, text).0;
      (reply == ChooseOption <==> awaiting == None)
      && (reply.NamesResult? || reply == EnterTwoNames ==> awaiting == Some(Names))
      && (reply.DatesResult? || reply == EnterTwoDates || reply == BadDateFormat ==> awaiting == Some(Dates))
  {
    match awaiting
    case None =>
    case Some(Names) => NamesBranch(Strip(text));
    case Some(Dates) => DatesBranch(Strip(text));
  }

  /**
   * The user is asked again for two items exactly when the stripped text
   * holds none of the separators and fewer than two words; a text with a
   * separator always goes on, even when a piece is empty.
   */
  lemma TooFewItems(mode: Mode, text: string)
    ensures var reply := Respond(Some(mode), text).0;
      var message := Strip(text);
      (reply == EnterTwoNames || reply == EnterTwoDates)
      <==> (forall j :: 0 <= j < |Separators| ==> !Contains(message, Separators[j]))
           && |SplitWhitespace(message)| < 2
  {
    SplitWithTooFew(Strip(text), Separators);
  }

  /**
   * A names result scores the first two pieces of the split, stripped:
   * each number is the name's score, and the combined number and
   * percentage are those of `calculate_compatibility`.
   */
  lemma NamesResultScores(text: string)
    requires Respond(Some(Names), text).0.NamesResult?
    ensures var reply := Respond(Some(Names), text).0;
      var pieces := SplitRule(Strip(text));
      |pieces| >= 2 && reply.name1 == Strip(pieces[0]) && reply.name2 == Strip(pieces[1])
      && reply.number1 == NameNumber(reply.name1) <= 9
      && reply.number2 == NameNumber(reply.name2) <= 9
      && reply.compatibility == CalculateCompatibility(reply.number1, reply.number2)
      && 30 <= reply.compatibility.percentage <= 99
  {
    var pieces := SplitRule(Strip(text));
    assert |pieces| >= 2 && Respond(Some(Names), text).0 == ScoreNames(Strip(pieces[0]), Strip(pieces[1])) by {
      NamesBranch(Strip(text));
    }
    ScoreNamesFacts(Strip(pieces[0]), Strip(pieces[1]));
  }

  /** The result for two names holds their scores, each a digit, and their compatibility. */
  lemma ScoreNamesFacts(name1: string, name2: string)
    ensures var reply := ScoreNames(name1, name2);
      reply.NamesResult? && reply.name1 == name1 && reply.name2 == name2
      && reply.number1 == NameNumber(name1) <= 9
      && reply.number2 == NameNumber(name2) <= 9
      && reply.compatibility == CalculateCompatibility(reply.number1, reply.number2)
      && 30 <= reply.compatibility.percentage <= 99
  {
    NameNumberRange(name1);
    NameNumberRange(name2);
  }

  /**
   * With two pieces, a dates request fails exactly when one of the two
   * stripped pieces is no date; otherwise both scores lie in 1 to 9 and the
   * fallback never appears.
   */
  lemma DatesOutcome(text: string)
    requires |SplitRule(Strip(text))| >= 2
    ensures var reply := Respond(Some(Dates), text).0;
      var pieces := SplitRule(Strip(text));
      var date1, date2 := Strip(pieces[0]), Strip(pieces[1]);
      (reply == BadDateFormat <==> DateNumber(date1).None? || DateNumber(date2).None?)
      && (reply.DatesResult? ==>
            1 <= reply.number1 <= 9 && 1 <= reply.number2 <= 9
            && reply.compatibility.description.Described?
            && reply.compatibility.keywords != FallbackKeywords)
  {
    var pieces := SplitRule(Strip(text));
    var date1, date2 := Strip(pieces[0]), Strip(pieces[1]);
    DatesReply(text);
    ScoreDatesOutcome(date1, date2);
  }

  lemma DatesReply(text: string)
    requires |SplitRule(Strip(text))| >= 2
    ensures var pieces := SplitRule(Strip(text));
      Respond(Some(Dates), text).0 == ScoreDates(Strip(pieces[0]), Strip(pieces[1]))
  {
  }

  /** `DatesOutcome` for the two stripped pieces themselves. */
  lemma ScoreDatesOutcome(date1: string, date2: string)
    ensures var reply := ScoreDates(date1, date2);
      (reply == BadDateFormat <==> DateNumber(date1).None? || DateNumber(date2).None?)
      && (reply.DatesResult? ==>
            1 <= reply.number1 <= 9 && 1 <= reply.number2 <= 9
            && reply.compatibility.description.Described?
            && reply.compatibility.keywords != FallbackKeywords)
  {
    DateNumberRange(date1);
    DateNumberRange(date2);
    if DateNumber(date1).Some? && DateNumber(date2).Some? {
      DatesNeverFallback(date1, date2);
    }
  }

  /** Swapping the two names swaps the two scores and keeps the compatibility. */
  lemma SwappedNames(text: string, swapped: string)
    requires |SplitRule(Strip(text))| >= 2 && |SplitRule(Strip(swapped))| >= 2
    requires Strip(SplitRule(Strip(text))[0]) == Strip(SplitRule(Strip(swapped))[1])
    requires Strip(SplitRule(Strip(text))[1]) == Strip(SplitRule(Strip(swapped))[0])
    ensures var a, b := Respond(Some(Names), text).0, Respond(Some(Names), swapped).0;
      a.NamesResult? && b.NamesResult?
      && a.number1 == b.number2 && a.number2 == b.number1 && a.compatibility == b.compatibility
  {
    var p := SplitRule(Strip(text));
    Symmetric(NameNumber(Strip(p[0])), NameNumber(Strip(p[1])));
  }

  // ----- Worked inputs -----

  /** A word without whitespace and without the one-character separators. */
  predicate Plain(w: string)
  {
    forall k :: 0 <= k < |w| ==> !IsSpace(w[k]) && w[k] != ',' && w[k] != ';' && w[k] != '&'
  }

  lemma CharAbsent(s: string, c: char)
    requires forall k :: 0 <= k < |s| ==> s[k] != c
    ensures !Contains(s, [c])
  {
    forall k: nat | k + 1 <= |s|
      ensures !OccursAt(s, [c], k)
    {
      assert s[k..k + 1] == [s[k]];
    }
    ContainsIff(s, [c]);
  }

  /** `' и '` needs two spaces, so a text with at most one whitespace character lacks it. */
  lemma AndAbsent(s: string, i: nat)
    requires forall k :: 0 <= k < |s| && k != i ==> !IsSpace(s[k])
    ensures !Contains(s, " и ")
  {
    forall k: nat | k + 3 <= |s|
      ensures !OccursAt(s, " и ", k)
    {
      assert s[k..k + 3][0] == s[k] && s[k..k + 3][2] == s[k + 2];
    }
    ContainsIff(s, " и ");
  }

  /** Two plain words separated by one space split into those two words, which strip to themselves. */
  lemma TwoWordsSplit(w1: string, w2: string)
    requires w1 != [] && w2 != [] && Plain(w1) && Plain(w2)
    ensures var s := w1 + " " + w2;
      Strip(s) == s && SplitRule(s) == [w1, w2] && Strip(w1) == w1 && Strip(w2) == w2
  {
    var s := w1 + " " + w2;
    SpacedWords(w1, w2);
    StripUnpadded(s);
    StripUnpadded(w1);
    StripUnpadded(w2);
    NoSeparatorBetween(s, |w1|);
    assert SplitWhitespace(s) == [w1, w2] by {
      assert Join([w1, w2], " ") == s;
      SplitWhitespaceJoin([w1, w2]);
    }
  }

  /** The only whitespace of `w1 + " " + w2` is the space between the words. */
  lemma SpacedWords(w1: string, w2: string)
    requires w1 != [] && w2 != [] && Plain(w1) && Plain(w2)
    ensures var s := w1 + " " + w2;
      s[|w1|] == ' ' && !IsSpace(s[0]) && !IsSpace(s[|s| - 1])
      && forall k :: 0 <= k < |s| && k != |w1| ==> !IsSpace(s[k]) && s[k] != ',' && s[k] != ';' && s[k] != '&'
  {
    var s := w1 + " " + w2;
    forall k | 0 <= k < |s| && k != |w1|
      ensures !IsSpace(s[k]) && s[k] != ',' && s[k] != ';' && s[k] != '&'
    {
      if k < |w1| {
        assert s[k] == w1[k];
      } else {
        assert s[k] == w2[k - |w1| - 1];
      }
    }
  }

  /** A text whose only whitespace is at `i` and that has no one-character separator is split on whitespace. */
  lemma NoSeparatorBetween(s: string, i: nat)
    requires forall k :: 0 <= k < |s| && k != i ==> !IsSpace(s[k]) && s[k] != ',' && s[k] != ';' && s[k] != '&'
    requires i < |s| ==> s[i] == ' '
    ensures SplitRule(s) == SplitWhitespace(s)
  {
    CharAbsent(s, ',');
    CharAbsent(s, ';');
    AndAbsent(s, i);
    CharAbsent(s, '&');
    NoSeparatorPresent(s);
  }

  /** With none of the four separators in it, the text is split on whitespace. */
  lemma NoSeparatorPresent(s: string)
    requires !Contains(s, ",") && !Contains(s, ";") && !Contains(s, " и ") && !Contains(s, "&")
    ensures SplitRule(s) == SplitWhitespace(s)
  {
    var seps := Separators;
    assert seps[0] == "," && seps[1] == ";" && seps[2] == " и " && seps[3] == "&";
    SplitWithNone(s, seps);
  }

  /** Two plain words separated by one space are the two names. */
  lemma TwoWords(w1: string, w2: string)
    requires w1 != [] && w2 != [] && Plain(w1) && Plain(w2)
    ensures var number1, number2 := NameNumber(w1), NameNumber(w2);
      Respond(Some(Names), w1 + " " + w2)
      == (NamesResult(w1, w2, number1, KeywordsOr(number1, ""), number2, KeywordsOr(number2, ""),
                      CalculateCompatibility(number1, number2)), None)
  {
    TwoWordsSplit(w1, w2);
  }

  /** Two plain words separated by one space are the two dates; a non-date among them is a bad format. */
  lemma TwoDates(w1: string, w2: string)
    requires w1 != [] && w2 != [] && Plain(w1) && Plain(w2)
    ensures Respond(Some(Dates), w1 + " " + w2)
      == match (DateNumber(w1), DateNumber(w2))
         case (Some(number1), Some(number2)) =>
           (DatesResult(w1, w2, number1, KeywordsOr(number1, ""), number2, KeywordsOr(number2, ""),
                        CalculateCompatibility(number1, number2)), None)
         case _ => (BadDateFormat, Some(Dates))
  {
    TwoWordsSplit(w1, w2);
  }

  /** One plain word is too few: the user is asked again and the mode stays. */
  lemma OneWord(mode: Mode, w: string)
    requires Plain(w)
    ensures Respond(Some(mode), w) == (if mode == Names then EnterTwoNames else EnterTwoDates, Some(mode))
  {
    StripUnpadded(w);
    NoSeparatorBetween(w, |w|);
    if w != [] {
      assert Join([w], " ") == w;
      SplitWhitespaceJoin([w]);
    } else {
      assert SplitWhitespace(w) == [];
    }
  }

  /** A trailing comma leaves an empty second name, which is accepted and scores 0. */
  lemma TrailingComma(w: string)
    requires w != [] && Plain(w)
    ensures Respond(Some(Names), w + ",") == (ScoreNames(w, ""), None)
    ensures NameNumber("") == 0
  {
    var s := w + ",";
    assert Strip(s) == s by {
      StripUnpadded(s);
    }
    assert SplitRule(s) == [w, ""] by {
      CommaSplit(w);
    }
    assert Strip(w) == w by {
      StripUnpadded(w);
    }
    assert Strip("") == "";
    assert NameNumber("") == 0;
  }

  /** "w1, w2": the comma splits the text, and stripping drops the space before the second name. */
  lemma CommaSpaced(w1: string, w2: string)
    requires w1 != [] && w2 != [] && Plain(w1) && Plain(w2)
    ensures Respond(Some(Names), w1 + ", " + w2) == (ScoreNames(w1, w2), None)
  {
    var s := w1 + ", " + w2;
    assert Strip(s) == s by {
      assert s[0] == w1[0] && s[|s| - 1] == w2[|w2| - 1];
      StripUnpadded(s);
    }
    assert RespondNames(s) == (ScoreNames(w1, w2), None) by {
      CommaSpacedSplit(w1, w2);
      StripUnpadded(w1);
      StripSpaceBefore(w2);
    }
  }

  /** One space before a word is stripped off. */
  lemma StripSpaceBefore(w: string)
    requires w != [] && !IsSpace(w[0]) && !IsSpace(w[|w| - 1])
    ensures Strip(" " + w) == w
  {
    var t := " " + w;
    assert t[1] == w[0] && t[|t| - 1] == w[|w| - 1];
    assert LeadingSpaces(t) == 1;
    assert TrailingSpaces(t) == 0;
    assert t[1..|t|] == w;
  }

  lemma CommaSpacedSplit(w1: string, w2: string)
    requires Plain(w1) && Plain(w2)
    ensures SplitRule(w1 + ", " + w2) == [w1, " " + w2]
  {
    var s := w1 + ", " + w2;
    var rest := " " + w2;
    assert SplitRule(s) == Split(s, ",") by {
      assert Contains(s, ",") by {
        assert OccursAt(s, ",", |w1|);
        ContainsIff(s, ",");
      }
      SplitWithFirst(s, Separators, 0);
    }
    assert Find(s, ",") == Some(|w1|) by {
      assert OccursAt(s, ",", |w1|);
      forall k | 0 <= k < |w1|
        ensures !OccursAt(s, ",", k)
      {
        assert s[k] == w1[k];
        assert k + 1 <= |s| ==> s[k..k + 1][0] == s[k];
      }
    }
    assert s[..|w1|] == w1 && s[|w1| + 1..] == rest;
    assert Split(rest, ",") == [rest] by {
      assert forall k :: 0 <= k < |rest| ==> rest[k] != ',' by {
        assert forall k :: 1 <= k < |rest| ==> rest[k] == w2[k - 1];
      }
      CharAbsent(rest, ',');
    }
  }

  lemma CommaSplit(w: string)
    requires Plain(w)
    ensures SplitRule(w + ",") == [w, ""]
  {
    var s := w + ",";
    assert Contains(s, ",") by {
      assert OccursAt(s, ",", |w|);
      ContainsIff(s, ",");
    }
    SplitWithFirst(s, Separators, 0);
    assert Find(s, ",") == Some(|w|) by {
      forall k | 0 <= k < |w|
        ensures !OccursAt(s, ",", k)
      {
        assert s[k] == w[k];
        assert k + 1 <= |s| ==> s[k..k + 1][0] == s[k];
      }
    }
    assert s[..|w|] == w && s[|w| + 1..] == [];
    assert Split([], ",") == [[]];
  }
}
