/**
 * The few operations on Python `str` values that the bot's string handling relies on:
 * substring search (`sub in s`, `s.index(sub)`), `s.replace(pat, repl)` and `str(n)`
 * for an integer `n`.
 */
module PyStrings {
  import opened Wrappers

  /** `sub` occurs in `s` starting at index `i`. */
  predicate OccursAt(s: string, sub: string, i: nat)
  {
    i + |sub| <= |s| && s[i..i + |sub|] == sub
  }

  /**
   * `s.index(sub)` (and `s.find(sub)`): the first index where `sub` occurs, or `None`
   * where Python's `index` raises `ValueError`.
   */
  function Find(s: string, sub: string): (r: Option<nat>)
    ensures r.Some? ==> OccursAt(s, sub, r.value)
    ensures r.Some? ==> forall j :: 0 <= j < r.value ==> !OccursAt(s, sub, j)
    ensures r.None? ==> forall j :: 0 <= j <= |s| ==> !OccursAt(s, sub, j)
    decreases |s|
  {
    if |s| < |sub| then None
    else if s[..|sub|] == sub then Some(0)
    else
      var rest := Find(s[1..], sub);
      ShiftOccurs(s, sub);
      match rest
      case None => None
      case Some(k) => Some(k + 1)
  }

  /** `find` returns the first occurrence, so an occurrence with none before it is the answer. */
  lemma FindFirst(s: string, sub: string, n: nat)
    requires OccursAt(s, sub, n)
    requires forall j :: 0 <= j < n ==> !OccursAt(s, sub, j)
    ensures Find(s, sub) == Some(n)
  {
  }

  /** An occurrence of `sub` is also an occurrence of each prefix of `sub`. */
  lemma OccursPrefix(s: string, sub: string, j: nat, n: nat)
    requires n <= |sub|
    ensures OccursAt(s, sub, j) ==> OccursAt(s, sub[..n], j)
  {
    if OccursAt(s, sub, j) {
      assert s[j..j + n] == s[j..j + |sub|][..n];
    }
  }

  /** An occurrence in `s` at `j > 0` is an occurrence in `s[1..]` at `j - 1`, and back. */
  lemma ShiftOccurs(s: string, sub: string)
    requires |s| > 0
    ensures forall j: nat :: 0 < j ==> (OccursAt(s, sub, j) <==> OccursAt(s[1..], sub, j - 1))
  {
    forall j: nat | 0 < j && j + |sub| <= |s|
      ensures OccursAt(s, sub, j) <==> OccursAt(s[1..], sub, j - 1)
    {
      assert s[1..][j - 1..j - 1 + |sub|] == s[j..j + |sub|];
    }
  }

  /** `sub in s`. */
  predicate Contains(s: string, sub: string)
    ensures Contains(s, sub) <==> exists j :: 0 <= j <= |s| - |sub| && OccursAt(s, sub, j)
  {
    Find(s, sub).Some?
  }

  /**
   * `s.replace(pat, repl)` for a non-empty `pat`: every occurrence of `pat`, taken from
   * left to right without overlapping, is replaced by `repl`.
   */
  function ReplaceAll(s: string, pat: string, repl: string): (r: string)
    requires |pat| > 0
    ensures repl == pat ==> r == s
    ensures |repl| == |pat| ==> |r| == |s|
    decreases |s|
  {
    if |s| < |pat| then s
    else if s[..|pat|] == pat then repl + ReplaceAll(s[|pat|..], pat, repl)
    else [s[0]] + ReplaceAll(s[1..], pat, repl)
  }

  /** Without an occurrence of `pat`, `replace` returns the string unchanged. */
  lemma {:induction false} ReplaceWithoutOccurrence(s: string, pat: string, repl: string)
    requires |pat| > 0 && !Contains(s, pat)
    ensures ReplaceAll(s, pat, repl) == s
    decreases |s|
  {
    if |s| >= |pat| {
      assert !OccursAt(s, pat, 0);
      ReplaceSkips(s, pat, repl);
      NoOccurrenceInTail(s, pat);
      assert !Contains(s[1..], pat);
      ReplaceWithoutOccurrence(s[1..], pat, repl);
    }
  }

  lemma NoOccurrenceInTail(s: string, pat: string)
    requires |s| > 0
    ensures (forall j :: 0 <= j <= |s| ==> !OccursAt(s, pat, j)) ==>
      forall j :: 0 <= j <= |s| - 1 ==> !OccursAt(s[1..], pat, j)
  {
    if forall j :: 0 <= j <= |s| ==> !OccursAt(s, pat, j) {
      forall j | 0 <= j <= |s| - 1
        ensures !OccursAt(s[1..], pat, j)
      {
        assert !OccursAt(s, pat, j + 1);
        if j + |pat| <= |s| - 1 {
          assert s[1..][j..j + |pat|] == s[j + 1..j + 1 + |pat|];
        }
      }
    }
  }

  /**
   * When `pat` first occurs at `k` and runs to the end of `s`, replacing it leaves
   * `s[..k]` followed by `repl`: nothing before `k` matches and nothing follows.
   */
  lemma {:induction false} ReplaceFinalOccurrence(s: string, pat: string, repl: string, k: nat)
    requires |pat| > 0 && k + |pat| == |s| && s[k..] == pat
    requires forall j :: 0 <= j < k ==> !OccursAt(s, pat, j)
    ensures ReplaceAll(s, pat, repl) == s[..k] + repl
    decreases k
  {
    if k == 0 {
      ReplaceWhole(s, pat, repl);
    } else {
      var t := s[1..];
      assert !OccursAt(s, pat, 0);
      ReplaceSkips(s, pat, repl);
      NoOccurrenceBeforeInTail(s, pat, k);
      assert t[k - 1..] == pat;
      ReplaceFinalOccurrence(t, pat, repl, k - 1);
      assert [s[0]] + t[..k - 1] == s[..k];
    }
  }

  lemma ReplaceSkips(s: string, pat: string, repl: string)
    requires 0 < |pat| <= |s| && !OccursAt(s, pat, 0)
    ensures ReplaceAll(s, pat, repl) == [s[0]] + ReplaceAll(s[1..], pat, repl)
  {
  }

  lemma ReplaceWhole(s: string, pat: string, repl: string)
    requires |pat| > 0 && s == pat
    ensures ReplaceAll(s, pat, repl) == repl
  {
    assert s[..|pat|] == pat;
    assert s[|pat|..] == [];
  }

  lemma NoOccurrenceBeforeInTail(s: string, pat: string, k: nat)
    requires 0 < k <= |s|
    requires forall j :: 0 <= j < k ==> !OccursAt(s, pat, j)
    ensures forall j :: 0 <= j < k - 1 ==> !OccursAt(s[1..], pat, j)
  {
    forall j | 0 <= j < k - 1
      ensures !OccursAt(s[1..], pat, j)
    {
      assert !OccursAt(s, pat, j + 1);
      if j + |pat| <= |s| - 1 {
        assert s[1..][j..j + |pat|] == s[j + 1..j + 1 + |pat|];
      }
    }
  }

  /** The character for a decimal digit. */
  function DigitChar(d: nat): (c: char)
    requires d < 10
    ensures '0' <= c <= '9'
  {
    ('0' as int + d) as char
  }

  /** The value of a decimal digit character. */
  function DigitValue(c: char): (v: int)
    ensures IsDecimalDigit(c) ==> 0 <= v < 10 && DigitChar(v) == c
  {
    c as int - '0' as int
  }

  predicate IsDecimalDigit(c: char)
  {
    '0' <= c <= '9'
  }

  /** `str(n)` for a natural `n`: its decimal digits, most significant first, no leading zero. */
  function NatToString(n: nat): (r: string)
    ensures |r| > 0 && forall i :: 0 <= i < |r| ==> IsDecimalDigit(r[i])
    ensures r[0] == '0' ==> n == 0 && r == "0"
  {
    if n < 10 then [DigitChar(n)] else NatToString(n / 10) + [DigitChar(n % 10)]
  }

  /** `str(n)` for any integer `n`: a minus sign before the digits of a negative value. */
  function IntToString(n: int): (r: string)
    ensures |r| > 0 && (r[0] == '-' <==> n < 0)
    ensures forall i :: 0 < i < |r| ==> IsDecimalDigit(r[i])
    ensures n >= 0 ==> IsDecimalDigit(r[0])
    ensures (r[0] == '0' ==> n == 0 && r == "0") && (r[0] == '-' ==> |r| > 1 && r[1] != '0')
  {
    if n < 0 then "-" + NatToString(-n) else NatToString(n)
  }

  /** The value of a string of decimal digits, read most significant first. */
  function ParseNat(s: string): (v: int)
    ensures (forall i :: 0 <= i < |s| ==> IsDecimalDigit(s[i])) ==> v >= 0
  {
    if s == [] then 0 else 10 * ParseNat(s[..|s| - 1]) + DigitValue(s[|s| - 1])
  }

  /** The value `int(s)` gives back for a string `str(n)` produces. */
  function ParseInt(s: string): (v: int)
    ensures |s| > 0 && s[0] == '-' ==> v == -ParseNat(s[1..])
    ensures !(|s| > 0 && s[0] == '-') ==> v == ParseNat(s)
  {
    if |s| > 0 && s[0] == '-' then -ParseNat(s[1..]) else ParseNat(s)
  }

  lemma {:induction false} NatToStringRoundTrip(n: nat)
    ensures ParseNat(NatToString(n)) == n
  {
    if n >= 10 {
      NatToStringRoundTrip(n / 10);
      var s := NatToString(n / 10) + [DigitChar(n % 10)];
      assert s[..|s| - 1] == NatToString(n / 10);
    }
  }

  /** Reading back what `str(n)` writes gives `n`: the decimal form loses nothing. */
  lemma IntToStringRoundTrip(n: int)
    ensures ParseInt(IntToString(n)) == n
  {
    if n < 0 {
      NatToStringRoundTrip(-n);
      assert ("-" + NatToString(-n))[1..] == NatToString(-n);
    } else {
      NatToStringRoundTrip(n);
    }
  }

  /** Decimal digits with no leading zero: the text `str(n)` writes for a natural `n`. */
  predicate IsNatText(s: string)
  {
    |s| > 0 && (forall i :: 0 <= i < |s| ==> IsDecimalDigit(s[i])) && (s[0] == '0' ==> s == "0")
  }

  /** The text `str(n)` writes for an integer `n`: natural text, or `-` before a non-zero one. */
  predicate IsIntText(s: string)
  {
    if |s| > 0 && s[0] == '-' then IsNatText(s[1..]) && s[1..] != "0" else IsNatText(s)
  }

  /** `'{}'.format(n)` always writes canonical decimal text. */
  lemma IntToStringIsIntText(n: int)
    ensures IsIntText(IntToString(n))
  {
    if n < 0 {
      assert ("-" + NatToString(-n))[1..] == NatToString(-n);
    }
  }

  /** Digits that do not start with `0` have a positive value. */
  lemma {:induction false} ParseNatPositive(s: string)
    requires |s| > 0 && s[0] != '0'
    requires forall i :: 0 <= i < |s| ==> IsDecimalDigit(s[i])
    ensures ParseNat(s) >= 1
  {
    if |s| > 1 {
      var init := s[..|s| - 1];
      assert init[0] == s[0];
      ParseNatPositive(init);
    }
  }

  /** Every natural text is what `str` writes for its own value. */
  lemma {:induction false} NatTextRoundTrip(s: string)
    requires IsNatText(s)
    ensures ParseNat(s) >= 0 && NatToString(ParseNat(s)) == s
  {
    var d := s[|s| - 1];
    assert IsDecimalDigit(d);
    if |s| == 1 {
      assert s == [d];
    } else {
      var init := s[..|s| - 1];
      assert init[0] == s[0] != '0';
      assert forall i :: 0 <= i < |init| ==> IsDecimalDigit(init[i]) by {
        forall i | 0 <= i < |init| ensures IsDecimalDigit(init[i]) { assert init[i] == s[i]; }
      }
      NatTextRoundTrip(init);
      ParseNatPositive(init);
      var m := ParseNat(init);
      var n := ParseNat(s);
      assert n == 10 * m + DigitValue(d);
      assert n / 10 == m && n % 10 == DigitValue(d);
      assert s == init + [d];
    }
  }

  /**
   * The text of `'{}'.format(n)` is pinned down: the canonical decimal texts are exactly the
   * outputs of `IntToString`, each one the output for its own value.
   */
  lemma IntTextRoundTrip(s: string)
    requires IsIntText(s)
    ensures IntToString(ParseInt(s)) == s
  {
    if |s| > 0 && s[0] == '-' {
      var t := s[1..];
      NatTextRoundTrip(t);
      assert s == "-" + t;
    } else {
      NatTextRoundTrip(s);
    }
  }
}
