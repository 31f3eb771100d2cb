/**
 * The date scorer `calculate_birthdate_number`. `datetime.strptime` is
 * modelled by what it does for the directives the formats use: it turns the
 * format into a regular expression (`%d` is `3[01]|[12]\d|0[1-9]|[1-9]| [1-9]`,
 * `%m` is `1[0-2]|0[1-9]|[1-9]`, `%Y` is `\d\d\d\d`, other characters stand
 * for themselves), matches it at the start of the text with ordered
 * alternation and backtracking, insists that the match covers the whole
 * text, and then rejects a date the calendar does not have.
 */
module DateScore {
  import opened Wrappers
  import opened DigitalRoot

  /** A piece of a compiled format: a literal character or a directive. */
  datatype Token = Lit(c: char) | DayField | MonthField | YearField

  /** An inclusive range of characters: one bracket expression of the regex. */
  datatype CharRange = CharRange(lo: char, hi: char)

  /** One branch of an alternation: a fixed-length run of character ranges. */
  type Branch = seq<CharRange>

  const AnyDigit := CharRange('0', '9')
  const NonZeroDigit := CharRange('1', '9')

  function Exactly(c: char): CharRange { CharRange(c, c) }

  /** The branches `_strptime` gives each token, in the order the regex tries them. */
  function Branches(t: Token): seq<Branch>
  {
    match t
    case Lit(c) => [[Exactly(c)]]
    case DayField =>
      [[Exactly('3'), CharRange('0', '1')], [CharRange('1', '2'), AnyDigit],
       [Exactly('0'), NonZeroDigit], [NonZeroDigit], [Exactly(' '), NonZeroDigit]]
    case MonthField =>
      [[Exactly('1'), CharRange('0', '2')], [Exactly('0'), NonZeroDigit], [NonZeroDigit]]
    case YearField => [[AnyDigit, AnyDigit, AnyDigit, AnyDigit]]
  }

  function Directive(c: char): Token
  {
    match c
    case 'd' => DayField
    case 'm' => MonthField
    case _ => YearField
  }

  /** Turns a format string into tokens; `%d`, `%m`, `%Y` are the directives used. */
  function Compile(fmt: string): seq<Token>
    decreases |fmt|
  {
    if fmt == [] then []
    else if |fmt| >= 2 && fmt[0] == '%' && fmt[1] in "dmY" then
      [Directive(fmt[1])] + Compile(fmt[2..])
    else [Lit(fmt[0])] + Compile(fmt[1..])
  }

  /** Does branch `b` match the text `s` at position `i`? */
  predicate BranchMatches(b: Branch, s: string, i: nat)
    ensures BranchMatches(b, s, i) ==> i + |b| <= |s|
    decreases |b|
  {
    if b == [] then i <= |s|
    else i < |s| && b[0].lo <= s[i] <= b[0].hi && BranchMatches(b[1..], s, i + 1)
  }

  /** A branch fails where one of its characters is missing or out of its range. */
  lemma {:induction false} BranchFailsAt(b: Branch, s: string, i: nat, k: nat)
    requires k < |b| && (i + k >= |s| || !(b[k].lo <= s[i + k] <= b[k].hi))
    ensures !BranchMatches(b, s, i)
    decreases k
  {
    if k > 0 {
      BranchFailsAt(b[1..], s, i + 1, k - 1);
    }
  }

  /** A branch matches when every character lies in its range. */
  lemma {:induction false} RangesMatch(b: Branch, s: string, i: nat)
    requires i + |b| <= |s|
    requires forall k :: 0 <= k < |b| ==> b[k].lo <= s[i + k] <= b[k].hi
    ensures BranchMatches(b, s, i)
    decreases |b|
  {
    if b != [] {
      assert forall k :: 0 <= k < |b| - 1 ==> b[1..][k] == b[k + 1] && s[i + 1 + k] == s[i + (k + 1)];
      RangesMatch(b[1..], s, i + 1);
    }
  }

  /** What the directives captured so far (the regex's named groups). */
  type Groups = map<Token, string>

  /**
   * Match the tokens `p` against `s` from position `i`: the first successful
   * way, in the regex's order, with the groups and the end of the match.
   */
  function MatchAt(p: seq<Token>, s: string, i: nat, g: Groups): Option<(Groups, nat)>
    requires i <= |s|
    decreases |p|, 1, 0
  {
    if p == [] then Some((g, i)) else TryBranches(p, Branches(p[0]), s, i, g)
  }

  /** Try the branches `bs` of the first token of `p` in turn, backtracking on failure. */
  function TryBranches(p: seq<Token>, bs: seq<Branch>, s: string, i: nat, g: Groups): Option<(Groups, nat)>
    requires p != [] && i <= |s|
    decreases |p|, 0, |bs|
  {
    if bs == [] then None
    else if BranchMatches(bs[0], s, i) then
      var j := i + |bs[0]|;
      var g' := if p[0].Lit? then g else g[p[0] := s[i..j]];
      match MatchAt(p[1..], s, j, g')
      case Some(r) => Some(r)
      case None => TryBranches(p, bs[1..], s, i, g)
    else TryBranches(p, bs[1..], s, i, g)
  }

  /** `int()` of a captured group: its decimal digits, a leading space skipped. */
  function IntValue(t: string): nat
  {
    if t == [] then 0
    else if '0' <= t[|t| - 1] <= '9' then 10 * IntValue(t[..|t| - 1]) + (t[|t| - 1] as nat - '0' as nat)
    else IntValue(t[..|t| - 1])
  }

  /** A directive's value, or the default `_strptime` uses when it is absent. */
  function Field(g: Groups, t: Token, default: nat): nat
  {
    if t in g then IntValue(g[t]) else default
  }

  datatype Date = Date(day: nat, month: nat, year: nat)

  predicate IsLeapYear(y: nat)
  {
    y % 4 == 0 && (y % 100 != 0 || y % 400 == 0)
  }

  function DaysInMonth(month: nat, year: nat): nat
  {
    if month == 2 then (if IsLeapYear(year) then 29 else 28)
    else if month in {4, 6, 9, 11} then 30
    else 31
  }

  /** A date `datetime` accepts: years 1..9999, months 1..12, days of that month. */
  predicate ValidDate(d: Date)
  {
    1 <= d.year <= 9999 && 1 <= d.month <= 12 && 1 <= d.day <= DaysInMonth(d.month, d.year)
  }

  /**
   * Each directive at most once: `strptime` makes every directive a named
   * group of its regular expression, and a name used twice does not compile.
   */
  predicate SingleDirectives(p: seq<Token>)
  {
    forall i, j :: 0 <= i < j < |p| && !p[i].Lit? ==> p[i] != p[j]
  }

  /** `datetime.strptime(s, fmt)`: the date, or `None` where it raises. */
  function Strptime(s: string, fmt: string): Option<Date>
  {
    if !SingleDirectives(Compile(fmt)) then None
    else match MatchAt(Compile(fmt), s, 0, map[])
    case None => None
    case Some(r) =>
      if r.1 != |s| then None
      else
        var d := Date(Field(r.0, DayField, 1), Field(r.0, MonthField, 1), Field(r.0, YearField, 1900));
        if ValidDate(d) then Some(d) else None
  }

  const Formats: seq<string> := ["%d.%m.%Y", "%d/%m/%Y", "%d-%m-%Y", "%Y-%m-%d"]

  /** The date of the first format in `fmts` that parses `s`. */
  function FirstParse(s: string, fmts: seq<string>): Option<Date>
  {
    if fmts == [] then None
    else match Strptime(s, fmts[0])
      case Some(d) => Some(d)
      case None => FirstParse(s, fmts[1..])
  }

  /** The birth-date number: the reduced sum of day, month and year, or `None`. */
  function DateNumber(s: string): Option<nat>
  {
    match FirstParse(s, Formats)
    case None => None
    case Some(d) => Some(Reduce(d.day + d.month + d.year))
  }

  /** `DateNumber` depends on the text only through the date the formats read from it. */
  lemma DateNumberOfParse(s: string, parsed: Option<Date>)
    requires FirstParse(s, Formats) == parsed
    ensures DateNumber(s) == if parsed.Some? then Some(Reduce(parsed.value.day + parsed.value.month + parsed.value.year)) else None
  {
  }

  /** `calculate_birthdate_number`: the loop over the formats, stopping at the first that parses. */
  method CalculateBirthdateNumber(dateStr: string) returns (r: Option<nat>)
    ensures r == DateNumber(dateStr)
    ensures r.Some? ==> 1 <= r.value <= 9
  {
    var dateObj: Option<Date> := None;
    var k := 0;
    while k < |Formats|
      invariant 0 <= k <= |Formats|
      invariant dateObj.None?
      invariant FirstParse(dateStr, Formats) == FirstParse(dateStr, Formats[k..])
      decreases |Formats| - k
    {
      var fmt := Formats[k];
      dateObj := Strptime(dateStr, fmt);
      assert FirstParse(dateStr, Formats[k..])
          == if dateObj.Some? then dateObj else FirstParse(dateStr, Formats[k + 1..]) by {
        ghost var rest := Formats[k..];
        assert rest[0] == fmt && rest[1..] == Formats[k + 1..];
        FirstParseStep(dateStr, rest, dateObj);
      }
      if dateObj.Some? {
        break;
      }
      k := k + 1;
    }
    if dateObj.None? {
      assert FirstParse(dateStr, Formats) == None by {
        assert Formats[k..] == [];
      }
      DateNumberOfParse(dateStr, None);
      return None;
    }
    var date := dateObj.value;
    assert FirstParse(dateStr, Formats) == Some(date);
    DateNumberOfParse(dateStr, Some(date));
    assert date.year >= 1 by {
      FirstParseValid(dateStr, Formats);
    }
    var total := date.day + date.month + date.year;
    var n := ReduceToSingleDigit(total);
    assert 1 <= n <= 9 by {
      assert total != 0;
    }
    r := Some(n);
  }

  /** Whatever a format accepts is a real calendar date. */
  lemma StrptimeValid(s: string, fmt: string)
    ensures Strptime(s, fmt).Some? ==> ValidDate(Strptime(s, fmt).value)
  {
  }

  lemma {:induction false} FirstParseValid(s: string, fmts: seq<string>)
    ensures FirstParse(s, fmts).Some? ==> ValidDate(FirstParse(s, fmts).value)
    decreases |fmts|
  {
    if fmts != [] {
      StrptimeValid(s, fmts[0]);
      FirstParseValid(s, fmts[1..]);
    }
  }

  /** The date number, when there is one, is a digit 1..9 (0 cannot occur: years start at 1). */
  lemma DateNumberRange(s: string)
    ensures DateNumber(s).Some? ==> 1 <= DateNumber(s).value <= 9
  {
    FirstParseValid(s, Formats);
    match FirstParse(s, Formats)
    case None =>
    case Some(d) => ReduceRange(d.day + d.month + d.year);
  }

  // ----- Rendering a date with zero-padded fields, and parsing it back -----

  function Digit(n: nat): char
    requires n < 10
  {
    ('0' as int + n) as char
  }

  /** The last `width` decimal digits of `n`, zero-padded. */
  function Padded(n: nat, width: nat): (t: string)
    ensures |t| == width
  {
    if width == 0 then [] else Padded(n / 10, width - 1) + [Digit(n % 10)]
  }

  function Width(t: Token): nat
  {
    match t
    case Lit(_) => 1
    case DayField => 2
    case MonthField => 2
    case YearField => 4
  }

  function FieldOf(t: Token, d: Date): nat
  {
    match t
    case Lit(_) => 0
    case DayField => d.day
    case MonthField => d.month
    case YearField => d.year
  }

  function RenderToken(t: Token, d: Date): (r: string)
    ensures |r| == Width(t)
  {
    if t.Lit? then [t.c] else Padded(FieldOf(t, d), Width(t))
  }

  /** The text a format gives a date: day and month as two digits, the year as four. */
  function Render(p: seq<Token>, d: Date): string
  {
    if p == [] then [] else RenderToken(p[0], d) + Render(p[1..], d)
  }

  /** The groups the regex captures when it matches `Render(p, d)`. */
  function Captures(p: seq<Token>, d: Date, g: Groups): Groups
  {
    if p == [] then g
    else Captures(p[1..], d, if p[0].Lit? then g else g[p[0] := RenderToken(p[0], d)])
  }

  /** Fields that fit the directives' widths and ranges (not necessarily a calendar date). */
  predicate InFieldRanges(d: Date)
  {
    1 <= d.day <= 31 && 1 <= d.month <= 12 && d.year <= 9999
  }

  lemma {:induction false} PaddedIsDigits(n: nat, width: nat)
    ensures forall k :: 0 <= k < width ==> '0' <= Padded(n, width)[k] <= '9'
  {
    if width > 0 {
      PaddedIsDigits(n / 10, width - 1);
    }
  }

  lemma {:induction false} PaddedValue(n: nat, width: nat, bound: nat)
    requires bound == Pow10(width) && n < bound
    ensures IntValue(Padded(n, width)) == n
  {
    if width > 0 {
      var t := Padded(n, width);
      assert t[..|t| - 1] == Padded(n / 10, width - 1);
      PaddedValue(n / 10, width - 1, Pow10(width - 1));
    }
  }

  function Pow10(k: nat): nat
  {
    if k == 0 then 1 else 10 * Pow10(k - 1)
  }

  // ----- How the matcher runs on particular texts -----

  /** Index of the branch of directive `t` that the regex takes on a zero-padded field. */
  function PickedBranch(t: Token, d: Date): nat
    requires !t.Lit?
  {
    match t
    case DayField => if d.day >= 30 then 0 else if d.day >= 10 then 1 else 2
    case MonthField => if d.month >= 10 then 0 else 1
    case YearField => 0
  }

  lemma TwoDigits(n: nat)
    requires n < 100
    ensures Padded(n, 2) == [Digit(n / 10), Digit(n % 10)]
  {
    var q := n / 10;
    assert q < 10 && q % 10 == q;
    assert Padded(n, 2) == Padded(q, 1) + [Digit(n % 10)];
    assert Padded(q, 1) == Padded(q / 10, 0) + [Digit(q % 10)];
  }

  lemma FourDigits(n: nat)
    requires n < 10000
    ensures forall k :: 0 <= k < 4 ==> '0' <= Padded(n, 4)[k] <= '9'
  {
    PaddedIsDigits(n, 4);
  }

  /** The branch facts for a two-character field `c0 c1` at position `i` of `s`. */
  lemma DayBranchPicked(d: Date, s: string, i: nat)
    requires InFieldRanges(d) && i + 2 <= |s|
    requires s[i] == Digit(d.day / 10) && s[i + 1] == Digit(d.day % 10)
    ensures var k := PickedBranch(DayField, d);
      && |Branches(DayField)[k]| == 2 && BranchMatches(Branches(DayField)[k], s, i)
      && forall j :: 0 <= j < k ==> !BranchMatches(Branches(DayField)[j], s, i)
  {
    assert d.day < 30 ==> s[i] != '3';
    assert d.day < 10 ==> s[i] == '0';
  }

  lemma MonthBranchPicked(d: Date, s: string, i: nat)
    requires InFieldRanges(d) && i + 2 <= |s|
    requires s[i] == Digit(d.month / 10) && s[i + 1] == Digit(d.month % 10)
    ensures var k := PickedBranch(MonthField, d);
      && |Branches(MonthField)[k]| == 2 && BranchMatches(Branches(MonthField)[k], s, i)
      && forall j :: 0 <= j < k ==> !BranchMatches(Branches(MonthField)[j], s, i)
  {
    assert d.month < 10 ==> s[i] == '0';
  }

  /**
   * On a zero-padded field, the first branch of the directive that matches is
   * the one as wide as the field: no earlier branch matches.
   */
  lemma BranchPicked(t: Token, d: Date, s: string, i: nat)
    requires !t.Lit? && InFieldRanges(d)
    requires i + Width(t) <= |s| && s[i..i + Width(t)] == RenderToken(t, d)
    ensures PickedBranch(t, d) < |Branches(t)|
    ensures |Branches(t)[PickedBranch(t, d)]| == Width(t)
    ensures BranchMatches(Branches(t)[PickedBranch(t, d)], s, i)
    ensures forall j :: 0 <= j < PickedBranch(t, d) ==> !BranchMatches(Branches(t)[j], s, i)
  {
    var r := RenderToken(t, d);
    assert forall k :: 0 <= k < Width(t) ==> s[i + k] == r[k];
    match t
    case DayField =>
      TwoDigits(d.day);
      DayBranchPicked(d, s, i);
    case MonthField =>
      TwoDigits(d.month);
      MonthBranchPicked(d, s, i);
    case YearField =>
      FourDigits(d.year);
      RangesMatch(Branches(YearField)[0], s, i);
  }

  lemma SliceSplit(s: string, i: nat, a: string, b: string)
    requires i + |a + b| <= |s| && s[i..i + |a + b|] == a + b
    ensures s[i..i + |a|] == a
    ensures s[i + |a|..i + |a| + |b|] == b
  {
    assert s[i..i + |a|] == s[i..i + |a + b|][..|a|];
    assert s[i + |a|..i + |a| + |b|] == s[i..i + |a + b|][|a|..];
  }

  /** The regex skips branches that do not match and commits to the first whose continuation succeeds. */
  lemma {:induction false} TryPicked(p: seq<Token>, bs: seq<Branch>, s: string, i: nat, g: Groups, k: nat)
    requires p != [] && i <= |s| && k < |bs|
    requires forall j :: 0 <= j < k ==> !BranchMatches(bs[j], s, i)
    requires BranchMatches(bs[k], s, i)
    requires
      var g' := if p[0].Lit? then g else g[p[0] := s[i..i + |bs[k]|]];
      MatchAt(p[1..], s, i + |bs[k]|, g').Some?
    ensures
      var g' := if p[0].Lit? then g else g[p[0] := s[i..i + |bs[k]|]];
      TryBranches(p, bs, s, i, g) == MatchAt(p[1..], s, i + |bs[k]|, g')
    decreases k
  {
    if k > 0 {
      TryPicked(p, bs[1..], s, i, g, k - 1);
    }
  }

  /** The pattern `p` matches its own rendering of `d`, capturing every field. */
  lemma {:induction false} MatchRendered(p: seq<Token>, d: Date, s: string, i: nat, g: Groups)
    requires InFieldRanges(d)
    requires i + |Render(p, d)| <= |s| && s[i..i + |Render(p, d)|] == Render(p, d)
    ensures MatchAt(p, s, i, g) == Some((Captures(p, d, g), i + |Render(p, d)|))
    decreases |p|
  {
    if p != [] {
      var g' := if p[0].Lit? then g else g[p[0] := RenderToken(p[0], d)];
      RenderedPrefix(p, d, s, i);
      MatchRendered(p[1..], d, s, i + Width(p[0]), g');
      RenderedStep(p, d, s, i, g);
    }
  }

  /** One step of `MatchRendered`: the first token's text, then the rest's match. */
  lemma RenderedStep(p: seq<Token>, d: Date, s: string, i: nat, g: Groups)
    requires p != [] && InFieldRanges(d)
    requires i + |Render(p, d)| <= |s| && s[i..i + |Render(p, d)|] == Render(p, d)
    requires
      var g' := if p[0].Lit? then g else g[p[0] := RenderToken(p[0], d)];
      MatchAt(p[1..], s, i + Width(p[0]), g') == Some((Captures(p[1..], d, g'), i + |Render(p, d)|))
    ensures MatchAt(p, s, i, g) == Some((Captures(p, d, g), i + |Render(p, d)|))
  {
    RenderedPrefix(p, d, s, i);
    StepPicked(p, d, s, i, g);
  }

  /** A rendering inside a text splits into the first token's text and the rest's. */
  lemma RenderedPrefix(p: seq<Token>, d: Date, s: string, i: nat)
    requires p != [] && InFieldRanges(d)
    requires i + |Render(p, d)| <= |s| && s[i..i + |Render(p, d)|] == Render(p, d)
    ensures |Render(p, d)| == Width(p[0]) + |Render(p[1..], d)|
    ensures s[i..i + Width(p[0])] == RenderToken(p[0], d)
    ensures s[i + Width(p[0])..i + Width(p[0]) + |Render(p[1..], d)|] == Render(p[1..], d)
  {
    assert Render(p, d) == RenderToken(p[0], d) + Render(p[1..], d);
    SliceSplit(s, i, RenderToken(p[0], d), Render(p[1..], d));
  }

  /** The regex takes the first token's rendered text and goes on with the rest. */
  lemma StepPicked(p: seq<Token>, d: Date, s: string, i: nat, g: Groups)
    requires p != [] && InFieldRanges(d)
    requires i + Width(p[0]) <= |s| && s[i..i + Width(p[0])] == RenderToken(p[0], d)
    requires
      var g' := if p[0].Lit? then g else g[p[0] := RenderToken(p[0], d)];
      MatchAt(p[1..], s, i + Width(p[0]), g').Some?
    ensures
      var g' := if p[0].Lit? then g else g[p[0] := RenderToken(p[0], d)];
      MatchAt(p, s, i, g) == MatchAt(p[1..], s, i + Width(p[0]), g')
  {
    var t := p[0];
    if t.Lit? {
      assert s[i] == t.c;
      assert BranchMatches(Branches(t)[0], s, i);
      TryPicked(p, Branches(t), s, i, g, 0);
    } else {
      BranchPicked(t, d, s, i);
      TryPicked(p, Branches(t), s, i, g, PickedBranch(t, d));
    }
  }

  lemma {:induction false} CapturesLookup(p: seq<Token>, d: Date, g: Groups, t: Token)
    requires !t.Lit?
    ensures t in Captures(p, d, g) <==> t in g || t in p
    ensures t in p ==> Captures(p, d, g)[t] == RenderToken(t, d)
    ensures t !in p && t in g ==> Captures(p, d, g)[t] == g[t]
    decreases |p|
  {
    if p != [] {
      var g' := if p[0].Lit? then g else g[p[0] := RenderToken(p[0], d)];
      CapturesLookup(p[1..], d, g', t);
      assert t in p <==> t == p[0] || t in p[1..];
    }
  }

  /**
   * A format holding `%d`, `%m` and `%Y` reads back the date it renders:
   * the date itself when the calendar has it and no directive repeats,
   * `None` otherwise.
   */
  lemma StrptimeRendered(fmt: string, d: Date)
    requires InFieldRanges(d)
    requires DayField in Compile(fmt) && MonthField in Compile(fmt) && YearField in Compile(fmt)
    ensures Strptime(Render(Compile(fmt), d), fmt)
         == if ValidDate(d) && SingleDirectives(Compile(fmt)) then Some(d) else None
  {
    var p := Compile(fmt);
    var s := Render(p, d);
    assert s[0..|s|] == s;
    MatchRendered(p, d, s, 0, map[]);
    var g := Captures(p, d, map[]);
    CapturesLookup(p, d, map[], DayField);
    CapturesLookup(p, d, map[], MonthField);
    CapturesLookup(p, d, map[], YearField);
    PaddedValue(d.day, 2, 100);
    PaddedValue(d.month, 2, 100);
    PaddedValue(d.year, 4, 10000);
    assert Field(g, DayField, 1) == d.day;
    assert Field(g, MonthField, 1) == d.month;
    assert Field(g, YearField, 1900) == d.year;
  }

  // ----- Fields too wide for their directive -----

  /** Day and month written with two digits and the year with four, whatever their values. */
  predicate Writable(d: Date)
  {
    d.day < 100 && d.month < 100 && d.year < 10000
  }

  /**
   * Each directive is followed by a literal or ends the pattern, and no
   * literal is a digit.
   */
  predicate Separated(p: seq<Token>)
  {
    forall j :: 0 <= j < |p| ==>
      (p[j].Lit? ==> !('0' <= p[j].c <= '9')) && (!p[j].Lit? && j + 1 < |p| ==> p[j + 1].Lit?)
  }

  /** Day and month lie in the ranges of `%d` and `%m` wherever the pattern reads them. */
  predicate FieldsFit(p: seq<Token>, d: Date)
  {
    (DayField in p ==> 1 <= d.day <= 31) && (MonthField in p ==> 1 <= d.month <= 12)
  }

  /** A successful alternation went on from one of its matching branches. */
  lemma {:induction false} TryBranchesTaken(p: seq<Token>, bs: seq<Branch>, s: string, i: nat, g: Groups)
      returns (k: nat)
    requires p != [] && i <= |s| && TryBranches(p, bs, s, i, g).Some?
    ensures k < |bs| && BranchMatches(bs[k], s, i)
    ensures TryBranches(p, bs, s, i, g)
         == MatchAt(p[1..], s, i + |bs[k]|, if p[0].Lit? then g else g[p[0] := s[i..i + |bs[k]|]])
    decreases |bs|
  {
    if BranchMatches(bs[0], s, i)
       && MatchAt(p[1..], s, i + |bs[0]|, if p[0].Lit? then g else g[p[0] := s[i..i + |bs[0]|]]).Some?
    {
      k := 0;
    } else {
      var k' := TryBranchesTaken(p, bs[1..], s, i, g);
      k := k' + 1;
    }
  }

  /** A two-character branch of `%d` or `%m` that matches a two-digit field takes a value in range. */
  lemma WideBranchFits(t: Token, d: Date, b: Branch, s: string, i: nat)
    requires Writable(d) && b in Branches(t) && |b| == Width(t) && BranchMatches(b, s, i)
    requires i + Width(t) <= |s| && s[i..i + Width(t)] == RenderToken(t, d)
    ensures FieldsFit([t], d)
  {
    if t == DayField || t == MonthField {
      var v := FieldOf(t, d);
      TwoDigits(v);
      assert s[i] == Digit(v / 10) && s[i + 1] == Digit(v % 10) by {
        assert s[i..i + 2][0] == s[i] && s[i..i + 2][1] == s[i + 1];
      }
      assert b[0].lo <= s[i] <= b[0].hi && b[1].lo <= s[i + 1] <= b[1].hi by {
        assert BranchMatches(b[1..], s, i + 1);
        assert b[1..][0] == b[1];
      }
    }
  }

  /** A directive taking one digit of a two-digit field stops the match: a literal or the end follows. */
  lemma NarrowBranchStops(rest: seq<Token>, s: string, j: nat, g: Groups)
    requires j < |s| && '0' <= s[j] <= '9'
    requires rest == [] || (rest[0].Lit? && !('0' <= rest[0].c <= '9'))
    ensures MatchAt(rest, s, j, g).None? || MatchAt(rest, s, j, g).value.1 < |s|
  {
    if rest != [] {
      LiteralMismatch(rest, s, j, g);
    }
  }

  /**
   * Where the regex matches a whole text that writes day and month with two
   * digits, day and month lie in the directives' ranges: for "00", "32" or
   * "13" the only branch that can start is the one-digit `[1-9]`, and the
   * literal or the end of the pattern that follows then meets a digit.
   */
  lemma {:induction false} FullMatchFits(p: seq<Token>, d: Date, s: string, i: nat, g: Groups)
    requires Writable(d) && Separated(p)
    requires i + |Render(p, d)| == |s| && s[i..] == Render(p, d)
    ensures MatchAt(p, s, i, g).Some? && MatchAt(p, s, i, g).value.1 == |s| ==> FieldsFit(p, d)
    decreases |p|
  {
    if p != [] && MatchAt(p, s, i, g).Some? && MatchAt(p, s, i, g).value.1 == |s| {
      var g' := FirstTokenFits(p, d, s, i, g);
      SeparatedTail(p);
      FullMatchFits(p[1..], d, s, i + Width(p[0]), g');
      FieldsFitCons(p, d);
    }
  }

  lemma SeparatedTail(p: seq<Token>)
    requires Separated(p) && p != []
    ensures Separated(p[1..])
  {
    assert forall j :: 0 <= j < |p| - 1 ==> p[1..][j] == p[j + 1];
  }

  lemma FieldsFitCons(p: seq<Token>, d: Date)
    requires p != [] && FieldsFit([p[0]], d) && FieldsFit(p[1..], d)
    ensures FieldsFit(p, d)
  {
    assert p == [p[0]] + p[1..];
  }

  /**
   * One step of `FullMatchFits`: on a whole-text match, the first token took
   * its full two-digit width, so its field fits, and the match went on after it.
   */
  lemma FirstTokenFits(p: seq<Token>, d: Date, s: string, i: nat, g: Groups) returns (g': Groups)
    requires Writable(d) && Separated(p) && p != []
    requires i + |Render(p, d)| == |s| && s[i..] == Render(p, d)
    requires MatchAt(p, s, i, g).Some? && MatchAt(p, s, i, g).value.1 == |s|
    ensures FieldsFit([p[0]], d)
    ensures i + Width(p[0]) + |Render(p[1..], d)| == |s| && s[i + Width(p[0])..] == Render(p[1..], d)
    ensures MatchAt(p[1..], s, i + Width(p[0]), g') == MatchAt(p, s, i, g)
  {
    var t, rest := p[0], p[1..];
    var w := Width(t);
    assert s[i..i + w] == RenderToken(t, d) && s[i + w..] == Render(rest, d) by {
      RenderSplit(p, d, s, i);
    }
    var k := TryBranchesTaken(p, Branches(t), s, i, g);
    var b := Branches(t)[k];
    g' := if t.Lit? then g else g[t := s[i..i + |b|]];
    BranchWidths(t, b);
    if |b| == w {
      WideBranchFits(t, d, b, s, i);
    } else {
      assert '0' <= s[i + 1] <= '9' by {
        PaddedIsDigits(FieldOf(t, d), 2);
        assert s[i + 1] == s[i..i + w][1];
      }
      NarrowBranchStops(rest, s, i + 1, g');
      assert false;
    }
  }

  /** The text of a pattern's rendering splits into its first token's text and the rest's. */
  lemma RenderSplit(p: seq<Token>, d: Date, s: string, i: nat)
    requires p != [] && i + |Render(p, d)| == |s| && s[i..] == Render(p, d)
    ensures i + Width(p[0]) <= |s|
    ensures s[i..i + Width(p[0])] == RenderToken(p[0], d) && s[i + Width(p[0])..] == Render(p[1..], d)
  {
    var w := Width(p[0]);
    assert Render(p, d) == RenderToken(p[0], d) + Render(p[1..], d);
    assert s[i..i + w] == s[i..][..w];
    assert s[i + w..] == s[i..][w..];
  }

  /** Every branch is as wide as its token's rendering, except the one-digit `[1-9]` of `%d` and `%m`. */
  lemma BranchWidths(t: Token, b: Branch)
    requires b in Branches(t)
    ensures |b| == Width(t) || (|b| == 1 && Width(t) == 2 && (t == DayField || t == MonthField))
  {
  }

  /**
   * A format whose directives are separated by non-digit literals reads a
   * text that writes day and month with two digits only when they lie in
   * 1..31 and 1..12: day "00" or "32".."99" and month "00" or "13".."99"
   * fail already in the regex, before the calendar is consulted.
   */
  lemma StrptimeRejectsUnfit(fmt: string, d: Date)
    requires Writable(d) && Separated(Compile(fmt))
    requires DayField in Compile(fmt) && MonthField in Compile(fmt)
    ensures Strptime(Render(Compile(fmt), d), fmt).Some? ==> InFieldRanges(d)
  {
    var p := Compile(fmt);
    var s := Render(p, d);
    assert s[0..] == s;
    FullMatchFits(p, d, s, 0, map[]);
  }

  // ----- The four formats of the bot -----

  lemma CompileDirective(c: char, rest: string)
    requires c in "dmY"
    ensures Compile(['%', c] + rest) == [Directive(c)] + Compile(rest)
  {
    assert (['%', c] + rest)[2..] == rest;
  }

  lemma CompileLiteral(c: char, rest: string)
    requires c != '%'
    ensures Compile([c] + rest) == [Lit(c)] + Compile(rest)
  {
    assert ([c] + rest)[1..] == rest;
  }

  /** `%d<sep>%m<sep>%Y` compiles to day, separator, month, separator, year. */
  lemma CompileDayFirst(sep: char)
    requires sep != '%'
    ensures Compile(['%', 'd', sep, '%', 'm', sep, '%', 'Y'])
         == [DayField, Lit(sep), MonthField, Lit(sep), YearField]
  {
    CompileDirective('Y', []);
    CompileLiteral(sep, "%Y");
    CompileDirective('m', [sep, '%', 'Y']);
    CompileLiteral(sep, "%m" + [sep] + "%Y");
    CompileDirective('d', [sep, '%', 'm', sep, '%', 'Y']);
  }

  lemma CompileYearFirst()
    ensures Compile("%Y-%m-%d") == [YearField, Lit('-'), MonthField, Lit('-'), DayField]
  {
    CompileDirective('d', []);
    CompileLiteral('-', "%d");
    CompileDirective('m', "-%d");
    CompileLiteral('-', "%m-%d");
    CompileDirective('Y', "-%m-%d");
  }

  /** The token sequences of `Formats`, in order. */
  function FormatTokens(k: nat): seq<Token>
    requires k < 4
  {
    if k == 0 then [DayField, Lit('.'), MonthField, Lit('.'), YearField]
    else if k == 1 then [DayField, Lit('/'), MonthField, Lit('/'), YearField]
    else if k == 2 then [DayField, Lit('-'), MonthField, Lit('-'), YearField]
    else [YearField, Lit('-'), MonthField, Lit('-'), DayField]
  }

  lemma CompiledFormats()
    ensures |Formats| == 4
    ensures forall k :: 0 <= k < 4 ==> Compile(Formats[k]) == FormatTokens(k)
  {
    CompileDayFirst('.');
    CompileDayFirst('/');
    CompileDayFirst('-');
    CompileYearFirst();
  }

  // ----- Texts a format cannot match -----

  /** A pattern with the literal `c` fails on a text that has no `c` from `i` on. */
  lemma {:induction false} NoLiteralMatch(p: seq<Token>, c: char, s: string, i: nat, g: Groups)
    requires i <= |s| && Lit(c) in p
    requires forall j :: i <= j < |s| ==> s[j] != c
    ensures MatchAt(p, s, i, g) == None
    decreases |p|, 1, 0
  {
    NoLiteralTry(p, Branches(p[0]), c, s, i, g);
  }

  lemma {:induction false} NoLiteralTry(p: seq<Token>, bs: seq<Branch>, c: char, s: string, i: nat, g: Groups)
    requires i <= |s| && p != []
    requires (p[0] == Lit(c) && forall b :: b in bs ==> b == [Exactly(c)]) || Lit(c) in p[1..]
    requires forall j :: i <= j < |s| ==> s[j] != c
    ensures TryBranches(p, bs, s, i, g) == None
    decreases |p|, 0, |bs|
  {
    if bs != [] {
      if Lit(c) !in p[1..] {
        assert bs[0] in bs;
        assert !BranchMatches(bs[0], s, i);
      }
      if BranchMatches(bs[0], s, i) {
        var j := i + |bs[0]|;
        var g' := if p[0].Lit? then g else g[p[0] := s[i..j]];
        NoLiteralMatch(p[1..], c, s, j, g');
      }
      assert forall b :: b in bs[1..] ==> b in bs;
      NoLiteralTry(p, bs[1..], c, s, i, g);
    }
  }

  /** A pattern starting with a literal fails where the text has another character. */
  lemma LiteralMismatch(p: seq<Token>, s: string, i: nat, g: Groups)
    requires i <= |s| && p != [] && p[0].Lit?
    requires i == |s| || s[i] != p[0].c
    ensures MatchAt(p, s, i, g) == None
  {
    var bs := Branches(p[0]);
    assert bs == [[Exactly(p[0].c)]];
    BranchFailsAt(bs[0], s, i, 0);
    assert TryBranches(p, bs[1..], s, i, g) == None;
    assert MatchAt(p, s, i, g) == TryBranches(p, bs, s, i, g);
  }

  /**
   * `%d` followed by the literal `c` fails when neither of the next two
   * characters is `c`: every branch of `%d` is one or two characters wide.
   */
  lemma {:induction false} DayThenLiteralFails(p: seq<Token>, bs: seq<Branch>, s: string, i: nat, g: Groups)
    requires |p| >= 2 && p[0] == DayField && p[1].Lit? && i <= |s|
    requires forall b :: b in bs ==> 1 <= |b| <= 2
    requires forall j :: i < j <= i + 2 && j < |s| ==> s[j] != p[1].c
    ensures TryBranches(p, bs, s, i, g) == None
    decreases |bs|
  {
    if bs != [] {
      if BranchMatches(bs[0], s, i) {
        var j := i + |bs[0]|;
        LiteralMismatch(p[1..], s, j, g[p[0] := s[i..j]]);
      }
      DayThenLiteralFails(p, bs[1..], s, i, g);
    }
  }

  /** `%Y` first fails unless the text starts with four digits. */
  lemma YearFirstFails(p: seq<Token>, s: string, g: Groups, k: nat)
    requires p != [] && p[0] == YearField
    requires k < 4 && (k >= |s| || !('0' <= s[k] <= '9'))
    ensures MatchAt(p, s, 0, g) == None
  {
    var bs := Branches(YearField);
    BranchFailsAt(bs[0], s, 0, k);
    assert TryBranches(p, bs[1..], s, 0, g) == None;
    assert MatchAt(p, s, 0, g) == TryBranches(p, bs, s, 0, g);
  }

  // ----- Reading back what the formats write -----

  /** Date `d` written in the k-th format, day and month as two digits, the year as four. */
  function FormatDate(d: Date, k: nat): string
    requires k < 4
  {
    Render(FormatTokens(k), d)
  }

  function SeparatorOf(k: nat): char
    requires k < 4
  {
    if k == 0 then '.' else if k == 1 then '/' else '-'
  }

  /** Where the k-th format puts its two separators. */
  predicate IsSeparatorPosition(k: nat, j: nat)
  {
    if k < 3 then j == 2 || j == 5 else j == 4 || j == 7
  }

  lemma RenderFive(p: seq<Token>, d: Date)
    requires |p| == 5
    ensures Render(p, d)
         == RenderToken(p[0], d) + RenderToken(p[1], d) + RenderToken(p[2], d)
          + RenderToken(p[3], d) + RenderToken(p[4], d)
  {
    var q1, q2, q3, q4 := p[1..], p[2..], p[3..], p[4..];
    assert q1[1..] == q2 && q2[1..] == q3 && q3[1..] == q4 && q4[1..] == [];
    assert Render(q4, d) == RenderToken(p[4], d);
    assert Render(q3, d) == RenderToken(p[3], d) + Render(q4, d);
    assert Render(q2, d) == RenderToken(p[2], d) + Render(q3, d);
    assert Render(q1, d) == RenderToken(p[1], d) + Render(q2, d);
  }

  /** The shape of a written date: ten characters, digits except for the two separators. */
  lemma FormatDateShape(d: Date, k: nat)
    requires k < 4
    ensures |FormatDate(d, k)| == 10
    ensures forall j :: 0 <= j < 10 && IsSeparatorPosition(k, j) ==> FormatDate(d, k)[j] == SeparatorOf(k)
    ensures forall j :: 0 <= j < 10 && !IsSeparatorPosition(k, j) ==> '0' <= FormatDate(d, k)[j] <= '9'
  {
    var p := FormatTokens(k);
    RenderFive(p, d);
    PaddedIsDigits(d.day, 2);
    PaddedIsDigits(d.month, 2);
    PaddedIsDigits(d.year, 4);
    var s := FormatDate(d, k);
    var sep := [SeparatorOf(k)];
    var dd, mm, yyyy := Padded(d.day, 2), Padded(d.month, 2), Padded(d.year, 4);
    if k < 3 {
      assert s == dd + sep + mm + sep + yyyy;
      assert forall j :: 0 <= j < 2 ==> s[j] == dd[j];
      assert forall j :: 3 <= j < 5 ==> s[j] == mm[j - 3];
      assert forall j :: 6 <= j < 10 ==> s[j] == yyyy[j - 6];
    } else {
      assert s == yyyy + sep + mm + sep + dd;
      assert forall j :: 0 <= j < 4 ==> s[j] == yyyy[j];
      assert forall j :: 5 <= j < 7 ==> s[j] == mm[j - 5];
      assert forall j :: 8 <= j < 10 ==> s[j] == dd[j - 8];
    }
  }

  /** The shape of a text written in the k-th format: ten characters, separators where the format puts them, digits elsewhere. */
  predicate Shaped(s: string, k: nat)
    requires k < 4
  {
    && |s| == 10
    && (forall j :: 0 <= j < 10 && IsSeparatorPosition(k, j) ==> s[j] == SeparatorOf(k))
    && (forall j :: 0 <= j < 10 && !IsSeparatorPosition(k, j) ==> '0' <= s[j] <= '9')
  }

  /** A format other than the one a date was written in rejects it. */
  lemma OtherFormatRejects(d: Date, k: nat, j: nat)
    requires k < 4 && j < 4 && j != k
    ensures Strptime(FormatDate(d, k), Formats[j]) == None
  {
    var s := FormatDate(d, k);
    assert Shaped(s, k) by {
      FormatDateShape(d, k);
    }
    assert Compile(Formats[j]) == FormatTokens(j) by {
      CompiledFormats();
    }
    ShapedRejects(s, k, j);
  }

  /** The pattern of the j-th format fails on every text shaped like the k-th, for j other than k. */
  lemma ShapedRejects(s: string, k: nat, j: nat)
    requires k < 4 && j < 4 && j != k && Shaped(s, k)
    ensures MatchAt(FormatTokens(j), s, 0, map[]) == None
  {
    var p := FormatTokens(j);
    if j < 2 || (j == 2 && k < 2) {
      assert Lit(SeparatorOf(j)) == p[1];
      NoLiteralMatch(p, SeparatorOf(j), s, 0, map[]);
    } else if j == 2 {
      assert MatchAt(p, s, 0, map[]) == TryBranches(p, Branches(DayField), s, 0, map[]);
      DayThenLiteralFails(p, Branches(DayField), s, 0, map[]);
    } else {
      assert !IsSeparatorPosition(k, 2) ==> false;
      YearFirstFails(p, s, map[], 2);
    }
  }

  lemma FirstParseStep(s: string, fmts: seq<string>, r: Option<Date>)
    requires fmts != [] && r == Strptime(s, fmts[0])
    ensures FirstParse(s, fmts) == if r.Some? then r else FirstParse(s, fmts[1..])
  {
  }

  lemma FirstParseOfFormats(s: string, r0: Option<Date>, r1: Option<Date>, r2: Option<Date>, r3: Option<Date>)
    requires r0 == Strptime(s, Formats[0]) && r1 == Strptime(s, Formats[1])
    requires r2 == Strptime(s, Formats[2]) && r3 == Strptime(s, Formats[3])
    ensures FirstParse(s, Formats)
         == if r0.Some? then r0 else if r1.Some? then r1 else if r2.Some? then r2 else r3
  {
    var f := Formats;
    FirstParseStep(s, f, r0);
    FirstParseStep(s, f[1..], r1);
    FirstParseStep(s, f[2..], r2);
    FirstParseStep(s, f[3..], r3);
    assert f[1..][1..] == f[2..] && f[2..][1..] == f[3..] && f[3..][1..] == [];
  }

  /** The format a date was written in reads it back, or rejects it when the calendar lacks it. */
  lemma WrittenStrptime(d: Date, k: nat)
    requires Writable(d) && k < 4
    ensures Strptime(FormatDate(d, k), Formats[k]) == if ValidDate(d) then Some(d) else None
  {
    if InFieldRanges(d) {
      WrittenInRange(d, k);
    } else {
      WrittenOutOfRange(d, k);
    }
  }

  /** The k-th format compiles to the tokens that write the k-th way, all three directives among them. */
  lemma FormatFacts(d: Date, k: nat)
    requires k < 4
    ensures Compile(Formats[k]) == FormatTokens(k)
    ensures FormatDate(d, k) == Render(Compile(Formats[k]), d)
    ensures DayField in Compile(Formats[k]) && MonthField in Compile(Formats[k]) && YearField in Compile(Formats[k])
    ensures SingleDirectives(Compile(Formats[k]))
  {
    CompiledFormats();
    var p := FormatTokens(k);
    assert p[0] in p && p[2] in p && p[4] in p;
    FormatSingleDirectives(k);
  }

  /** A format that repeats a directive is refused, whatever the text. */
  lemma RepeatedDirectiveRefused(s: string)
    ensures Strptime(s, "%d.%d") == None
  {
    assert Compile("%d.%d") == [DayField, Lit('.'), DayField] by {
      CompileDirective('d', ".%d");
      CompileLiteral('.', "%d");
      CompileDirective('d', "");
      assert ['%', 'd'] + ".%d" == "%d.%d";
      assert ['.'] + "%d" == ".%d";
      assert ['%', 'd'] + "" == "%d";
    }
    var p := Compile("%d.%d");
    assert !p[0].Lit? && p[0] == p[2];
  }

  /** None of the four formats repeats a directive. */
  lemma FormatSingleDirectives(k: nat)
    requires k < 4
    ensures SingleDirectives(FormatTokens(k))
  {
    var p := FormatTokens(k);
    forall i, j | 0 <= i < j < |p| && !p[i].Lit?
      ensures p[i] != p[j]
    {
      assert i == 0 || i == 2 || i == 4;
    }
  }

  lemma WrittenInRange(d: Date, k: nat)
    requires InFieldRanges(d) && k < 4
    ensures Strptime(FormatDate(d, k), Formats[k]) == if ValidDate(d) then Some(d) else None
  {
    FormatFacts(d, k);
    StrptimeRendered(Formats[k], d);
  }

  lemma WrittenOutOfRange(d: Date, k: nat)
    requires Writable(d) && !InFieldRanges(d) && k < 4
    ensures !ValidDate(d) && Strptime(FormatDate(d, k), Formats[k]) == None
  {
    assert !ValidDate(d);
    assert Strptime(FormatDate(d, k), Formats[k]) == None by {
      FormatFacts(d, k);
      FormatSeparated(k);
      StrptimeRejectsUnfit(Formats[k], d);
    }
  }

  /** In each of the four formats the directives are separated by `.`, `/` or `-`. */
  lemma FormatSeparated(k: nat)
    requires k < 4
    ensures Separated(FormatTokens(k))
  {
    var p := FormatTokens(k);
    forall j | 0 <= j < |p|
      ensures (p[j].Lit? ==> !('0' <= p[j].c <= '9')) && (!p[j].Lit? && j + 1 < |p| ==> p[j + 1].Lit?)
    {
      assert j % 2 == 1 <==> p[j].Lit?;
    }
  }

  /**
   * Round trip: a date written in any of the four formats, day and month
   * with two digits and the year with four, reads back as itself when the
   * calendar has it and as `None` when it does not (a day or month outside
   * the directives' ranges included); no other format intercepts it.
   */
  lemma RoundTrip(d: Date, k: nat)
    requires Writable(d) && k < 4
    ensures FirstParse(FormatDate(d, k), Formats) == if ValidDate(d) then Some(d) else None
  {
    var s := FormatDate(d, k);
    CompiledFormats();
    WrittenStrptime(d, k);
    forall j | 0 <= j < 4 && j != k
      ensures Strptime(s, Formats[j]) == None
    {
      OtherFormatRejects(d, k, j);
    }
    FirstParseOfFormats(s, Strptime(s, Formats[0]), Strptime(s, Formats[1]),
                        Strptime(s, Formats[2]), Strptime(s, Formats[3]));
  }

  // ----- The examples of the help text, and texts that are not dates -----

  lemma FourDigitsOf(n: nat, a: nat, b: nat, c: nat, e: nat)
    requires a < 10 && b < 10 && c < 10 && e < 10 && n == 1000 * a + 100 * b + 10 * c + e
    ensures Padded(n, 4) == [Digit(a), Digit(b), Digit(c), Digit(e)]
  {
    var n1, n2 := 100 * a + 10 * b + c, 10 * a + b;
    assert n / 10 == n1 && n % 10 == e;
    assert n1 / 10 == n2 && n1 % 10 == c;
    assert n2 / 10 == a && n2 % 10 == b;
    assert Padded(a, 1) == Padded(a / 10, 0) + [Digit(a % 10)] == [Digit(a)];
    assert Padded(n2, 2) == Padded(a, 1) + [Digit(b)];
    assert Padded(n1, 3) == Padded(n2, 2) + [Digit(c)];
    assert Padded(n, 4) == Padded(n1, 3) + [Digit(e)];
  }

  lemma WrittenAugust15()
    ensures FormatDate(Date(15, 8, 1990), 0) == "15.08.1990"
    ensures FormatDate(Date(15, 8, 1990), 1) == "15/08/1990"
    ensures FormatDate(Date(15, 8, 1990), 2) == "15-08-1990"
    ensures FormatDate(Date(15, 8, 1990), 3) == "1990-08-15"
  {
    TwoDigits(15);
    TwoDigits(8);
    FourDigitsOf(1990, 1, 9, 9, 0);
    WrittenAugust15In(0);
    WrittenAugust15In(1);
    WrittenAugust15In(2);
    WrittenAugust15In(3);
  }

  lemma WrittenAugust15In(k: nat)
    requires k < 4
    requires RenderToken(DayField, Date(15, 8, 1990)) == "15"
    requires RenderToken(MonthField, Date(15, 8, 1990)) == "08"
    requires RenderToken(YearField, Date(15, 8, 1990)) == "1990"
    ensures FormatDate(Date(15, 8, 1990), k) == ["15.08.1990", "15/08/1990", "15-08-1990", "1990-08-15"][k]
  {
    RenderFive(FormatTokens(k), Date(15, 8, 1990));
  }

  /** What `calculate_birthdate_number` makes of a date written in one of the accepted formats. */
  lemma ScoreOfWritten(s: string, d: Date, k: nat)
    requires Writable(d) && k < 4 && FormatDate(d, k) == s
    ensures DateNumber(s) == if ValidDate(d) then Some(Reduce(d.day + d.month + d.year)) else None
  {
    if ValidDate(d) {
      assert FirstParse(s, Formats) == Some(d) by { RoundTrip(d, k); }
      DateNumberOfParse(s, Some(d));
    } else {
      assert FirstParse(s, Formats) == None by { RoundTrip(d, k); }
      DateNumberOfParse(s, None);
    }
  }

  /** The four example dates of the help text all give 15 + 8 + 1990 = 2013, reduced to 6. */
  lemma HelpExamples()
    ensures DateNumber("15.08.1990") == Some(6)
    ensures DateNumber("15/08/1990") == Some(6)
    ensures DateNumber("15-08-1990") == Some(6)
    ensures DateNumber("1990-08-15") == Some(6)
  {
    WrittenAugust15();
    HelpExample("15.08.1990", 0);
    HelpExample("15/08/1990", 1);
    HelpExample("15-08-1990", 2);
    HelpExample("1990-08-15", 3);
  }

  /** 15 August 1990 written in any of the four formats scores 6. */
  lemma HelpExample(s: string, k: nat)
    requires k < 4 && s == FormatDate(Date(15, 8, 1990), k)
    ensures DateNumber(s) == Some(6)
  {
    var d := Date(15, 8, 1990);
    assert ValidDate(d);
    assert Reduce(2013) == 6 by {
      ReduceIsRoot(2013);
    }
    ScoreOfWritten(s, d, k);
  }

  /** The calendar decides: 29 February reads back exactly in leap years, in every format. */
  lemma LeapDayRule(year: nat, k: nat)
    requires 1 <= year <= 9999 && k < 4
    ensures FirstParse(FormatDate(Date(29, 2, year), k), Formats).Some? <==> IsLeapYear(year)
  {
    RoundTrip(Date(29, 2, year), k);
  }

  /** 30 February never exists, whatever the year and the format. */
  lemma ThirtiethFebruaryRejected(year: nat, k: nat)
    requires year <= 9999 && k < 4
    ensures DateNumber(FormatDate(Date(30, 2, year), k)) == None
  {
    RoundTrip(Date(30, 2, year), k);
  }

  /** A pattern fails where no branch of its first token can take the next character. */
  lemma {:induction false} FirstCharFails(p: seq<Token>, bs: seq<Branch>, s: string, i: nat, g: Groups)
    requires p != [] && i <= |s|
    requires forall b: Branch :: b in bs ==> b != [] && (i == |s| || !(b[0].lo <= s[i] <= b[0].hi))
    ensures TryBranches(p, bs, s, i, g) == None
    decreases |bs|
  {
    if bs != [] {
      assert bs[0] in bs;
      BranchFailsAt(bs[0], s, i, 0);
      assert forall b :: b in bs[1..] ==> b in bs;
      FirstCharFails(p, bs[1..], s, i, g);
    }
  }

  lemma LeadingFieldFails(p: seq<Token>, s: string)
    requires p != [] && (p[0] == DayField || p[0] == YearField)
    requires s == [] || !('0' <= s[0] <= '9' || s[0] == ' ')
    ensures MatchAt(p, s, 0, map[]) == None
  {
    FirstCharFails(p, Branches(p[0]), s, 0, map[]);
  }

  /**
   * Every accepted format begins with `%d` or `%Y`, so a text that does not
   * start with a digit (or, for `%d`, a space) is no date.
   */
  lemma NoLeadingDigit(s: string)
    requires s == [] || !('0' <= s[0] <= '9' || s[0] == ' ')
    ensures DateNumber(s) == None
  {
    CompiledFormats();
    forall k | 0 <= k < 4
      ensures Strptime(s, Formats[k]) == None
    {
      LeadingFieldFails(FormatTokens(k), s);
    }
    var none: Option<Date> := None;
    FirstParseOfFormats(s, none, none, none, none);
  }

  /** A text that is no date at all yields `None`, not an error. */
  lemma NotADate()
    ensures DateNumber("not-a-date") == None
  {
    NoLeadingDigit("not-a-date");
  }
}
