/** The name scorer `calculate_name_number`. */
module NameScore {
  import opened Letters
  import opened DigitalRoot

  /** `name.upper()`, character by character (see `Letters.Upper`). */
  function UpperString(s: string): (u: string)
    ensures |u| == |s|
    ensures forall i :: 0 <= i < |s| ==> u[i] == Upper(s[i])
  {
    seq(|s|, i requires 0 <= i < |s| => Upper(s[i]))
  }

  /** Sum of the table values of the characters of `u`, left to right. */
  function LetterSum(u: string): nat
  {
    if u == [] then 0 else LetterSum(u[..|u| - 1]) + LetterValue(u[|u| - 1])
  }

  /** The name's number: the reduced letter sum of the upper-cased name. */
  function NameNumber(name: string): nat
  {
    Reduce(LetterSum(UpperString(name)))
  }

  /** `calculate_name_number`, with the accumulating loop of the source. */
  method CalculateNameNumber(name: string) returns (r: nat)
    ensures r == NameNumber(name)
    ensures r <= 9
  {
    var total := 0;
    var upper := UpperString(name);
    for i := 0 to |upper|
      invariant total == LetterSum(upper[..i])
    {
      assert upper[..i + 1][..i] == upper[..i];
      match NumerologyValues(upper[i]) {
        case Some(v) => total := total + v;
        case None =>
      }
    }
    assert upper[..|upper|] == upper;
    r := ReduceToSingleDigit(total);
  }

  lemma {:induction false} LetterSumAppend(a: string, b: string)
    ensures LetterSum(a + b) == LetterSum(a) + LetterSum(b)
    decreases |b|
  {
    if b != [] {
      var b' := b[..|b| - 1];
      assert (a + b)[..|a + b| - 1] == a + b';
      LetterSumAppend(a, b');
    } else {
      assert a + b == a;
    }
  }

  lemma UpperStringAppend(a: string, b: string)
    ensures UpperString(a + b) == UpperString(a) + UpperString(b)
  {
  }

  /** The name's number is a digit 0..9. */
  lemma NameNumberRange(name: string)
    ensures NameNumber(name) <= 9
  {
    ReduceRange(LetterSum(UpperString(name)));
  }

  /** A mapped letter of the upper-cased name: one the table gives a digit. */
  predicate HasMappedLetter(name: string)
  {
    exists i :: 0 <= i < |name| && NumerologyValues(Upper(name[i])).Some?
  }

  lemma {:induction false} LetterSumZero(u: string)
    ensures LetterSum(u) == 0 <==> forall i :: 0 <= i < |u| ==> NumerologyValues(u[i]).None?
    decreases |u|
  {
    if u != [] {
      var u' := u[..|u| - 1];
      LetterSumZero(u');
      assert forall i :: 0 <= i < |u'| ==> u'[i] == u[i];
    }
  }

  /** The name scores 0 exactly when no character of it is in the table. */
  lemma NameNumberZero(name: string)
    ensures NameNumber(name) == 0 <==> !HasMappedLetter(name)
  {
    var u := UpperString(name);
    ReduceRange(LetterSum(u));
    LetterSumZero(u);
  }

  /** Case does not matter: upper-casing the name first changes nothing. */
  lemma NameNumberCaseInsensitive(name: string)
    ensures NameNumber(UpperString(name)) == NameNumber(name)
  {
    forall i | 0 <= i < |name| ensures Upper(Upper(name[i])) == Upper(name[i]) {
      UpperIdempotent(name[i]);
    }
    assert UpperString(UpperString(name)) == UpperString(name);
  }

  /** Two names that agree letter for letter up to case score alike. */
  lemma SameUpperSameNumber(a: string, b: string)
    requires |a| == |b|
    requires forall i :: 0 <= i < |a| ==> Upper(a[i]) == Upper(b[i])
    ensures NameNumber(a) == NameNumber(b)
  {
    assert UpperString(a) == UpperString(b);
  }

  /** A character outside the table, inserted anywhere, leaves the score unchanged. */
  lemma InsertUnmapped(a: string, c: char, b: string)
    requires NumerologyValues(Upper(c)).None?
    ensures NameNumber(a + [c] + b) == NameNumber(a + b)
  {
    var ua, uc, ub := UpperString(a), UpperString([c]), UpperString(b);
    assert UpperString(a + [c] + b) == ua + uc + ub by {
      UpperStringAppend(a + [c], b);
      UpperStringAppend(a, [c]);
    }
    assert UpperString(a + b) == ua + ub by {
      UpperStringAppend(a, b);
    }
    assert LetterSum(uc) == 0 by {
      assert uc == [Upper(c)];
      assert uc[..0] == [];
    }
    assert LetterSum(ua + uc + ub) == LetterSum(ua + ub) by {
      LetterSumAppend(ua + uc, ub);
      LetterSumAppend(ua, uc);
      LetterSumAppend(ua, ub);
    }
  }

  /** Removing the character at position k takes its value off the sum. */
  lemma LetterSumRemove(u: string, k: nat)
    requires k < |u|
    ensures LetterSum(u) == LetterSum(u[..k] + u[k + 1..]) + LetterValue(u[k])
  {
    assert u == u[..k] + ([u[k]] + u[k + 1..]);
    LetterSumAppend(u[..k], [u[k]] + u[k + 1..]);
    LetterSumAppend([u[k]], u[k + 1..]);
    LetterSumAppend(u[..k], u[k + 1..]);
    assert LetterSum([u[k]]) == LetterSum([]) + LetterValue(u[k]);
  }

  /** The sum depends only on the multiset of characters: order does not matter. */
  lemma {:induction false} LetterSumPermutation(u: string, v: string)
    requires multiset(u) == multiset(v)
    ensures LetterSum(u) == LetterSum(v)
    decreases |u|
  {
    if u != [] {
      var x := u[|u| - 1];
      var u' := u[..|u| - 1];
      assert u == u' + [x];
      assert x in multiset(v);
      var k :| 0 <= k < |v| && v[k] == x;
      var v' := v[..k] + v[k + 1..];
      assert v == v[..k] + [x] + v[k + 1..];
      assert multiset(v) == multiset(v[..k]) + multiset{x} + multiset(v[k + 1..]);
      assert multiset(v') == multiset(v[..k]) + multiset(v[k + 1..]);
      assert multiset(u) == multiset(u') + multiset{x};
      assert multiset(u') == multiset(u) - multiset{x};
      assert multiset(v') == multiset(v) - multiset{x};
      LetterSumPermutation(u', v');
      LetterSumRemove(v, k);
    } else {
      assert |v| == |multiset(v)| == 0;
    }
  }

  /** Rearranging the characters of a name does not change its number. */
  lemma NameNumberPermutation(a: string, b: string)
    requires multiset(a) == multiset(b)
    ensures NameNumber(a) == NameNumber(b)
  {
    UpperStringMultiset(a, b);
    LetterSumPermutation(UpperString(a), UpperString(b));
  }

  /** The characters of `u` that the table gives a digit, in order. */
  function Mapped(u: string): (m: string)
    ensures |m| <= |u|
    ensures forall i :: 0 <= i < |m| ==> NumerologyValues(m[i]).Some?
  {
    if u == [] then []
    else Mapped(u[..|u| - 1]) + (if NumerologyValues(u[|u| - 1]).Some? then [u[|u| - 1]] else [])
  }

  /** Only the mapped characters contribute to the sum. */
  lemma {:induction false} LetterSumMapped(u: string)
    ensures LetterSum(u) == LetterSum(Mapped(u))
    decreases |u|
  {
    if u != [] {
      var u', x := u[..|u| - 1], u[|u| - 1];
      var last := if NumerologyValues(x).Some? then [x] else [];
      assert Mapped(u) == Mapped(u') + last;
      assert LetterSum(u) == LetterSum(u') + LetterValue(x);
      assert LetterSum(last) == LetterValue(x) by {
        if last != [] {
          assert last[..0] == [];
        }
      }
      assert LetterSum(Mapped(u)) == LetterSum(Mapped(u')) + LetterSum(last) by {
        LetterSumAppend(Mapped(u'), last);
      }
      LetterSumMapped(u');
    }
  }

  /**
   * The number depends only on the multiset of the table letters of the
   * upper-cased name: their order and every other character are irrelevant.
   */
  lemma MappedLettersDecide(a: string, b: string)
    requires multiset(Mapped(UpperString(a))) == multiset(Mapped(UpperString(b)))
    ensures NameNumber(a) == NameNumber(b)
  {
    var ua, ub := UpperString(a), UpperString(b);
    LetterSumMapped(ua);
    LetterSumMapped(ub);
    LetterSumPermutation(Mapped(ua), Mapped(ub));
  }

  lemma {:induction false} UpperStringMultiset(a: string, b: string)
    requires multiset(a) == multiset(b)
    ensures multiset(UpperString(a)) == multiset(UpperString(b))
    decreases |a|
  {
    if a != [] {
      var x := a[|a| - 1];
      var a' := a[..|a| - 1];
      assert x in multiset(b) by {
        assert x in multiset(a);
      }
      var k :| 0 <= k < |b| && b[k] == x;
      var b' := b[..k] + b[k + 1..];
      assert multiset(a') == multiset(b') by {
        assert a == a' + [x];
        assert b == b[..k] + [x] + b[k + 1..];
        assert multiset(b) == multiset(b[..k]) + multiset{x} + multiset(b[k + 1..]);
        assert multiset(b') == multiset(b[..k]) + multiset(b[k + 1..]);
        assert multiset(a) == multiset(a') + multiset{x};
        assert multiset(a') == multiset(a) - multiset{x};
        assert multiset(b') == multiset(b) - multiset{x};
      }
      UpperStringMultiset(a', b');
      assert multiset(UpperString(a)) == multiset(UpperString(a')) + multiset{Upper(x)} by {
        UpperStringRemove(a, |a| - 1);
        assert a[..|a| - 1] + a[|a|..] == a';
      }
      assert multiset(UpperString(b)) == multiset(UpperString(b')) + multiset{Upper(x)} by {
        UpperStringRemove(b, k);
      }
    } else {
      assert |b| == |multiset(b)| == 0;
    }
  }

  /** Taking one character out of a text takes its upper-case form out of the upper-cased text. */
  lemma UpperStringRemove(u: string, k: nat)
    requires k < |u|
    ensures multiset(UpperString(u)) == multiset(UpperString(u[..k] + u[k + 1..])) + multiset{Upper(u[k])}
  {
    assert u == u[..k] + ([u[k]] + u[k + 1..]);
    UpperStringAppend(u[..k], [u[k]] + u[k + 1..]);
    UpperStringAppend([u[k]], u[k + 1..]);
    UpperStringAppend(u[..k], u[k + 1..]);
    assert UpperString([u[k]]) == [Upper(u[k])];
  }
}
