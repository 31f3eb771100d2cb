/**
 * How `handle_message` cuts the user's text into two items: the string
 * operations it relies on (`str.strip`, `in`, `str.split(sep)` and
 * `str.split()`) and the rule that picks the first separator present.
 */
module Splitting {
  import opened Wrappers

  /** `str.isspace` for one character: the characters Python treats as whitespace. */
  predicate IsSpace(c: char)
  {
    ('\t' <= c <= '\r') || ('\U{1C}' <= c <= ' ') || c == '\U{85}' || c == '\U{A0}'
    || c == '\U{1680}' || ('\U{2000}' <= c <= '\U{200A}') || c == '\U{2028}' || c == '\U{2029}'
    || c == '\U{202F}' || c == '\U{205F}' || c == '\U{3000}'
  }

  predicate NoSpace(w: string)
  {
    forall k :: 0 <= k < |w| ==> !IsSpace(w[k])
  }

  // ----- str.strip() -----

  /** The number of whitespace characters `s` starts with. */
  function LeadingSpaces(s: string): (n: nat)
    ensures n <= |s|
    ensures forall k :: 0 <= k < n ==> IsSpace(s[k])
    ensures n < |s| ==> !IsSpace(s[n])
    decreases |s|
  {
    if s != [] && IsSpace(s[0]) then 1 + LeadingSpaces(s[1..]) else 0
  }

  /** The number of whitespace characters `s` ends with. */
  function TrailingSpaces(s: string): (n: nat)
    ensures n <= |s|
    ensures forall k :: |s| - n <= k < |s| ==> IsSpace(s[k])
    ensures n < |s| ==> !IsSpace(s[|s| - 1 - n])
    decreases |s|
  {
    if s != [] && IsSpace(s[|s| - 1]) then 1 + TrailingSpaces(s[..|s| - 1]) else 0
  }

  /**
   * `str.strip()`: the slice of `s` between its leading and its trailing
   * whitespace; it neither starts nor ends with whitespace, and everything
   * cut off is whitespace.
   */
  function Strip(s: string): (r: string)
    ensures r == [] || (!IsSpace(r[0]) && !IsSpace(r[|r| - 1]))
    ensures r == [] <==> forall k :: 0 <= k < |s| ==> IsSpace(s[k])
    ensures r != [] ==> LeadingSpaces(s) + TrailingSpaces(s) < |s| && r == s[LeadingSpaces(s)..|s| - TrailingSpaces(s)]
  {
    var i := LeadingSpaces(s);
    if i == |s| then []
    else
      assert !IsSpace(s[i]);
      s[i..|s| - TrailingSpaces(s)]
  }

  /** Stripping a text that has no whitespace at either end changes nothing. */
  lemma StripUnpadded(s: string)
    requires s == [] || (!IsSpace(s[0]) && !IsSpace(s[|s| - 1]))
    ensures Strip(s) == s
  {
  }

  /** Stripping twice is stripping once. */
  lemma StripIdempotent(s: string)
    ensures Strip(Strip(s)) == Strip(s)
  {
    StripUnpadded(Strip(s));
  }

  // ----- `sep in s` -----

  predicate OccursAt(s: string, sep: string, i: nat)
  {
    i + |sep| <= |s| && s[i..i + |sep|] == sep
  }

  /** The first position at or after `from` where `sep` occurs. */
  function FindFrom(s: string, sep: string, from: nat): (r: Option<nat>)
    requires from <= |s|
    ensures r.Some? ==> from <= r.value && OccursAt(s, sep, r.value)
    ensures r.Some? ==> forall k :: from <= k < r.value ==> !OccursAt(s, sep, k)
    ensures r.None? ==> forall k :: from <= k ==> !OccursAt(s, sep, k)
    decreases |s| - from
  {
    if from + |sep| > |s| then None
    else if s[from..from + |sep|] == sep then Some(from)
    else if from == |s| then None
    else FindFrom(s, sep, from + 1)
  }

  function Find(s: string, sep: string): Option<nat>
  {
    FindFrom(s, sep, 0)
  }

  /** `sep in s`: some slice of `s` equals `sep`. */
  predicate Contains(s: string, sep: string)
  {
    Find(s, sep).Some?
  }

  lemma ContainsIff(s: string, sep: string)
    ensures Contains(s, sep) <==> exists k :: OccursAt(s, sep, k)
  {
    if Contains(s, sep) {
      assert OccursAt(s, sep, Find(s, sep).value);
    }
  }

  // ----- str.split(sep) -----

  /** The pieces joined back with `sep` in between (Python's `sep.join(pieces)`). */
  function Join(pieces: seq<string>, sep: string): string
  {
    if pieces == [] then []
    else if |pieces| == 1 then pieces[0]
    else pieces[0] + sep + Join(pieces[1..], sep)
  }

  /** `s.split(sep)`: cut at every occurrence of `sep`, left to right. */
  function Split(s: string, sep: string): (r: seq<string>)
    requires sep != []
    ensures |r| >= 1
    decreases |s|
  {
    match Find(s, sep)
    case None => [s]
    case Some(i) => [s[..i]] + Split(s[i + |sep|..], sep)
  }

  /** Joining the pieces with the separator gives back the text. */
  lemma {:induction false} SplitJoin(s: string, sep: string)
    requires sep != []
    ensures Join(Split(s, sep), sep) == s
    decreases |s|
  {
    match Find(s, sep)
    case None =>
    case Some(i) =>
      var rest := s[i + |sep|..];
      var pieces := Split(rest, sep);
      SplitJoin(rest, sep);
      JoinCons(s[..i], pieces, sep);
      assert s[i..i + |sep|] == sep;
      assert s == s[..i] + s[i..i + |sep|] + rest;
  }

  lemma JoinCons(w: string, ws: seq<string>, sep: string)
    requires ws != []
    ensures Join([w] + ws, sep) == w + sep + Join(ws, sep)
  {
    assert ([w] + ws)[1..] == ws;
  }

  /** An occurrence inside a prefix is an occurrence in the whole text. */
  lemma OccursInPrefix(s: string, sep: string, i: nat, k: nat)
    requires i <= |s| && OccursAt(s[..i], sep, k)
    ensures OccursAt(s, sep, k) && k + |sep| <= i
  {
    assert s[..i][k..k + |sep|] == s[k..k + |sep|];
  }

  /** No piece of a split contains the separator. */
  lemma {:induction false} SplitPiecesClean(s: string, sep: string)
    requires sep != []
    ensures forall k :: 0 <= k < |Split(s, sep)| ==> !Contains(Split(s, sep)[k], sep)
    decreases |s|
  {
    match Find(s, sep)
    case None =>
    case Some(i) =>
      var head := s[..i];
      var rest := s[i + |sep|..];
      SplitPiecesClean(rest, sep);
      if Contains(head, sep) {
        var k := Find(head, sep).value;
        OccursInPrefix(s, sep, i, k);
        assert false;
      }
      assert Split(s, sep) == [head] + Split(rest, sep);
  }

  /**
   * Where the text is cut: the first piece ends at the leftmost occurrence
   * of the separator, and the other pieces are the split of what follows it.
   */
  lemma SplitFirstCut(s: string, sep: string)
    requires sep != [] && Contains(s, sep)
    ensures var head := Split(s, sep)[0];
      && OccursAt(s, sep, |head|)
      && (forall k :: 0 <= k < |head| ==> !OccursAt(s, sep, k))
      && head == s[..|head|]
      && Split(s, sep)[1..] == Split(s[|head| + |sep|..], sep)
  {
    var i := Find(s, sep).value;
    assert Split(s, sep) == [s[..i]] + Split(s[i + |sep|..], sep);
  }

  /** A split gives two or more pieces exactly when the separator occurs. */
  lemma SplitCount(s: string, sep: string)
    requires sep != []
    ensures |Split(s, sep)| >= 2 <==> Contains(s, sep)
  {
  }

  // ----- str.split() -----

  /** Length of the leading run of non-whitespace characters. */
  function WordEnd(t: string): (n: nat)
    ensures n <= |t|
    ensures forall k :: 0 <= k < n ==> !IsSpace(t[k])
    ensures n == |t| || IsSpace(t[n])
    decreases |t|
  {
    if t == [] || IsSpace(t[0]) then 0 else 1 + WordEnd(t[1..])
  }

  /**
   * `s.split()`: the maximal runs of non-whitespace, in order; leading,
   * trailing and repeated whitespace produce no empty pieces.
   */
  function SplitWhitespace(s: string): (r: seq<string>)
    ensures forall k :: 0 <= k < |r| ==> r[k] != [] && NoSpace(r[k])
    decreases |s|
  {
    var i := LeadingSpaces(s);
    if i == |s| then []
    else
      var t := s[i..];
      var n := WordEnd(t);
      var word := t[..n];
      assert word != [] && NoSpace(word) by {
        assert t[0] == s[i];
        assert forall k :: 0 <= k < n ==> word[k] == t[k];
      }
      [word] + SplitWhitespace(t[n..])
  }

  /** The characters of `s` that are not whitespace, in order. */
  function NonSpace(s: string): string
  {
    if s == [] then [] else (if IsSpace(s[0]) then [] else [s[0]]) + NonSpace(s[1..])
  }

  function Concat(ws: seq<string>): string
  {
    if ws == [] then [] else ws[0] + Concat(ws[1..])
  }

  lemma {:induction false} NonSpaceAppend(a: string, b: string)
    ensures NonSpace(a + b) == NonSpace(a) + NonSpace(b)
    decreases |a|
  {
    if a == [] {
      assert a + b == b;
    } else {
      assert (a + b)[1..] == a[1..] + b;
      NonSpaceAppend(a[1..], b);
    }
  }

  lemma {:induction false} NonSpaceOfBlank(s: string)
    requires forall k :: 0 <= k < |s| ==> IsSpace(s[k])
    ensures NonSpace(s) == []
    decreases |s|
  {
    if s != [] {
      NonSpaceOfBlank(s[1..]);
    }
  }

  lemma {:induction false} NonSpaceOfWord(w: string)
    requires NoSpace(w)
    ensures NonSpace(w) == w
    decreases |w|
  {
    if w != [] {
      NonSpaceOfWord(w[1..]);
    }
  }

  /** The words of `s.split()` hold every non-whitespace character of `s`, in order. */
  lemma {:induction false} SplitWhitespaceKeepsText(s: string)
    ensures Concat(SplitWhitespace(s)) == NonSpace(s)
    decreases |s|
  {
    var i := LeadingSpaces(s);
    var lead, t := s[..i], s[i..];
    assert s == lead + t;
    NonSpaceAppend(lead, t);
    NonSpaceOfBlank(lead);
    if i < |s| {
      var n := WordEnd(t);
      assert t == t[..n] + t[n..];
      NonSpaceAppend(t[..n], t[n..]);
      NonSpaceOfWord(t[..n]);
      SplitWhitespaceKeepsText(t[n..]);
      assert SplitWhitespace(s) == [t[..n]] + SplitWhitespace(t[n..]);
    }
  }

  /** Words joined by single spaces split back into the same words. */
  lemma {:induction false} SplitWhitespaceJoin(ws: seq<string>)
    requires forall k :: 0 <= k < |ws| ==> ws[k] != [] && NoSpace(ws[k])
    ensures SplitWhitespace(Join(ws, " ")) == ws
    decreases |ws|
  {
    if ws != [] {
      var w := ws[0];
      if |ws| == 1 {
        SplitWhitespaceStep(w, []);
        assert w + [] == w;
        assert SplitWhitespace([]) == [];
      } else {
        SplitWhitespaceJoin(ws[1..]);
        WordThenJoin(w, ws[1..]);
        assert [w] + ws[1..] == ws;
      }
    }
  }

  /** One more word in front of a space-joined text is one more piece in front. */
  lemma WordThenJoin(w: string, ws: seq<string>)
    requires w != [] && NoSpace(w) && ws != []
    ensures SplitWhitespace(Join([w] + ws, " ")) == [w] + SplitWhitespace(Join(ws, " "))
  {
    var rest := Join(ws, " ");
    var tail := " " + rest;
    assert Join([w] + ws, " ") == w + tail by {
      JoinCons(w, ws, " ");
      assert w + " " + rest == w + tail;
    }
    assert SplitWhitespace(w + tail) == [w] + SplitWhitespace(tail) by {
      SplitWhitespaceStep(w, tail);
    }
    assert SplitWhitespace(tail) == SplitWhitespace(rest) by {
      SplitWhitespaceLeadingSpace(' ', rest);
    }
  }

  /** A word followed by whitespace or by nothing is the first piece of `str.split()`. */
  lemma SplitWhitespaceStep(w: string, tail: string)
    requires w != [] && NoSpace(w) && (tail == [] || IsSpace(tail[0]))
    ensures SplitWhitespace(w + tail) == [w] + SplitWhitespace(tail)
  {
    var s := w + tail;
    assert s[0] == w[0];
    assert LeadingSpaces(s) == 0;
    assert s[0..] == s;
    WordEndOf(w, tail);
    assert s[..|w|] == w && s[|w|..] == tail;
  }

  /** A leading whitespace character, of any kind, does not change `str.split()`. */
  lemma SplitWhitespaceLeadingSpace(c: char, rest: string)
    requires IsSpace(c)
    ensures SplitWhitespace([c] + rest) == SplitWhitespace(rest)
  {
    var s := [c] + rest;
    assert s[1..] == rest;
    var j := LeadingSpaces(rest);
    assert LeadingSpaces(s) == 1 + j;
    assert s[1 + j..] == rest[j..];
  }

  /** A word followed by whitespace or by nothing is one run. */
  lemma {:induction false} WordEndOf(w: string, tail: string)
    requires NoSpace(w) && (tail == [] || IsSpace(tail[0]))
    ensures WordEnd(w + tail) == |w|
    decreases |w|
  {
    if w != [] {
      assert (w + tail)[1..] == w[1..] + tail;
      WordEndOf(w[1..], tail);
    } else {
      assert w + tail == tail;
    }
  }

  // ----- The separator rule of handle_message -----

  /** The separators `handle_message` tries, in order. */
  const Separators: seq<string> := [",", ";", " и ", "&"]

  /** Split on the first of `seps` that occurs in `text`; on whitespace when none does. */
  function SplitWith(text: string, seps: seq<string>): seq<string>
    requires forall k :: 0 <= k < |seps| ==> seps[k] != []
  {
    if seps == [] then SplitWhitespace(text)
    else if Contains(text, seps[0]) then Split(text, seps[0])
    else SplitWith(text, seps[1..])
  }

  function SplitRule(text: string): seq<string>
  {
    SplitWith(text, Separators)
  }

  /** The separator used is the first one in the list that occurs. */
  lemma {:induction false} SplitWithFirst(text: string, seps: seq<string>, k: nat)
    requires forall j :: 0 <= j < |seps| ==> seps[j] != []
    requires k < |seps| && Contains(text, seps[k])
    requires forall j :: 0 <= j < k ==> !Contains(text, seps[j])
    ensures SplitWith(text, seps) == Split(text, seps[k])
    decreases k
  {
    if k > 0 {
      assert !Contains(text, seps[0]);
      SplitWithFirst(text, seps[1..], k - 1);
    }
  }

  /** With no separator present the text is split on whitespace. */
  lemma {:induction false} SplitWithNone(text: string, seps: seq<string>)
    requires forall j :: 0 <= j < |seps| ==> seps[j] != []
    requires forall j :: 0 <= j < |seps| ==> !Contains(text, seps[j])
    ensures SplitWith(text, seps) == SplitWhitespace(text)
    decreases |seps|
  {
    if seps != [] {
      assert !Contains(text, seps[0]);
      SplitWithNone(text, seps[1..]);
    }
  }

  /**
   * The rule asks again exactly when no separator occurs and the text holds
   * fewer than two words; a separator always gives two pieces, even empty ones.
   */
  lemma {:induction false} SplitWithTooFew(text: string, seps: seq<string>)
    requires forall j :: 0 <= j < |seps| ==> seps[j] != []
    ensures |SplitWith(text, seps)| < 2
        <==> (forall j :: 0 <= j < |seps| ==> !Contains(text, seps[j])) && |SplitWhitespace(text)| < 2
    decreases |seps|
  {
    if seps != [] {
      SplitCount(text, seps[0]);
      SplitWithTooFew(text, seps[1..]);
      assert forall j :: 1 <= j < |seps| ==> seps[j] == seps[1..][j - 1];
    }
  }

  /** The separator loop of `handle_message`, with Python's `for ... else`. */
  method SplitItems(text: string) returns (pieces: seq<string>)
    ensures pieces == SplitRule(text)
  {
    var seps := Separators;
    var found := false;
    var k := 0;
    pieces := [text];
    while k < |seps|
      invariant 0 <= k <= |seps|
      invariant !found
      invariant forall j :: 0 <= j < k ==> !Contains(text, seps[j])
    {
      var sep := seps[k];
      if Contains(text, sep) {
        pieces := Split(text, sep);
        found := true;
        break;
      }
      k := k + 1;
    }
    if found {
      SplitWithFirst(text, seps, k);
    } else {
      pieces := SplitWhitespace(text);
      SplitWithNone(text, seps);
    }
  }
}
