/**
 * The PHP string functions the configuration code relies on, over `seq<char>`:
 * `strtolower`, `stripos`, `substr`, `str_replace`, `intval`, `boolval` and the
 * decimal form of an integer.
 */
module Text {
  import opened Results

  /** `strtolower` on one character (ASCII, as PHP 8 does it). */
  function LowerChar(c: char): char
  {
    if 'A' <= c <= 'Z' then (c as int + 32) as char else c
  }

  function Lower(s: string): (r: string)
    ensures |r| == |s|
    ensures forall i :: 0 <= i < |s| ==> r[i] == LowerChar(s[i])
  {
    seq(|s|, i requires 0 <= i < |s| => LowerChar(s[i]))
  }

  /** Lower-casing twice is lower-casing once. */
  lemma LowerIdempotent(s: string)
    ensures Lower(Lower(s)) == Lower(s)
  {
  }

  predicate IsLetter(c: char)
  {
    'a' <= c <= 'z' || 'A' <= c <= 'Z'
  }

  /** Lower-casing only moves 'A'..'Z': text without letters is its own and only preimage. */
  lemma LowerFixesNonLetters(s: string, t: string)
    requires forall i :: 0 <= i < |t| ==> !IsLetter(t[i])
    ensures Lower(s) == t <==> s == t
  {
    if Lower(s) == t {
      forall i | 0 <= i < |s| ensures s[i] == t[i] {
        assert LowerChar(s[i]) == t[i];
      }
    }
  }

  /** `pat` occurs in `s` at position `i`. */
  predicate OccursAt(s: string, pat: string, i: int)
  {
    0 <= i && i + |pat| <= |s| && s[i..i + |pat|] == pat
  }

  /** Position of the first occurrence of `pat` in `s`, or None. */
  function IndexOf(s: string, pat: string): (r: Option<nat>)
    ensures r.Some? ==> OccursAt(s, pat, r.value)
    ensures r.Some? ==> forall j :: 0 <= j < r.value ==> !OccursAt(s, pat, j)
    ensures r.None? ==> forall j :: !OccursAt(s, pat, j)
    decreases |s|
  {
    if |s| < |pat| then None
    else if s[..|pat|] == pat then Some(0)
    else
      var rest := IndexOf(s[1..], pat);
      ShiftOccurrence(s, pat);
      match rest
      case None => None
      case Some(k) => Some(k + 1)
  }

  lemma ShiftOccurrence(s: string, pat: string)
    requires |s| > 0
    ensures forall j :: 1 <= j ==> (OccursAt(s, pat, j) <==> OccursAt(s[1..], pat, j - 1))
  {
    forall j | 1 <= j
      ensures OccursAt(s, pat, j) <==> OccursAt(s[1..], pat, j - 1)
    {
      if j + |pat| <= |s| {
        var a, b := s[j..j + |pat|], s[1..][j - 1..j - 1 + |pat|];
        assert |a| == |b|;
        assert forall k :: 0 <= k < |a| ==> a[k] == s[j + k] == b[k];
      }
    }
  }

  predicate LetterFree(s: string)
  {
    forall i :: 0 <= i < |s| ==> !IsLetter(s[i])
  }

  /**
   * PHP's `stripos`: the first occurrence of `pat` in `s`, ignoring case. For a pattern
   * without letters (every pattern the configuration code uses) it is the plain search.
   */
  function Stripos(s: string, pat: string): (r: Option<nat>)
    ensures LetterFree(pat) ==> r == IndexOf(s, pat)
  {
    var r := IndexOf(Lower(s), Lower(pat));
    if LetterFree(pat) then
      SameOccurrences(s, pat);
      FirstOccurrenceUnique(Lower(s), s, pat);
      r
    else r
  }

  /** With a letter-free pattern, lower-casing the text finds it at exactly the same places. */
  lemma SameOccurrences(s: string, pat: string)
    requires LetterFree(pat)
    ensures Lower(pat) == pat
    ensures forall i :: OccursAt(Lower(s), pat, i) <==> OccursAt(s, pat, i)
  {
    LowerFixesNonLetters(pat, pat);
    forall i | 0 <= i && i + |pat| <= |s|
      ensures OccursAt(Lower(s), pat, i) <==> OccursAt(s, pat, i)
    {
      var w := s[i..i + |pat|];
      assert Lower(s)[i..i + |pat|] == Lower(w);
      LowerFixesNonLetters(w, pat);
    }
  }

  /** Texts in which `pat` occurs at the same places have the same first occurrence. */
  lemma FirstOccurrenceUnique(s: string, t: string, pat: string)
    requires forall i :: OccursAt(s, pat, i) <==> OccursAt(t, pat, i)
    ensures IndexOf(s, pat) == IndexOf(t, pat)
  {
  }

  /** `stripos(...) !== false`. */
  predicate Contains(s: string, pat: string)
  {
    Stripos(s, pat).Some?
  }

  /** A letter-free pattern found at some position is contained in the text. */
  lemma ContainsAt(s: string, pat: string, i: int)
    requires LetterFree(pat) && OccursAt(s, pat, i)
    ensures Contains(s, pat)
  {
  }

  /** PHP 8 `substr($s, $start, $len)` for a non-negative start and length. */
  function Substr(s: string, start: nat, len: nat): (r: string)
    ensures start <= |s| ==> r == s[start..if start + len <= |s| then start + len else |s|]
    ensures |s| < start ==> r == []
  {
    if |s| < start then [] else s[start..if start + len <= |s| then start + len else |s|]
  }

  /**
   * `str_replace($pat, $rep, $s)` for one pair: every occurrence of `pat`, scanning left to
   * right without overlap, is replaced, and the inserted text is not scanned again.
   * An empty pattern replaces nothing.
   */
  function ReplaceAll(s: string, pat: string, rep: string): string
    decreases |s|
  {
    if |pat| == 0 || |s| < |pat| then s
    else if s[..|pat|] == pat then rep + ReplaceAll(s[|pat|..], pat, rep)
    else [s[0]] + ReplaceAll(s[1..], pat, rep)
  }

  /** Text in which `pat` does not occur comes back from `ReplaceAll` unchanged. */
  lemma {:induction false} ReplaceAllAbsent(s: string, pat: string, rep: string)
    requires forall j :: !OccursAt(s, pat, j)
    ensures ReplaceAll(s, pat, rep) == s
    decreases |s|
  {
    if |pat| == 0 || |s| < |pat| {
    } else {
      assert !OccursAt(s, pat, 0);
      ShiftOccurrence(s, pat);
      forall j ensures !OccursAt(s[1..], pat, j) {
        if 0 <= j {
          assert !OccursAt(s, pat, j + 1);
        }
      }
      ReplaceAllAbsent(s[1..], pat, rep);
      assert [s[0]] + s[1..] == s;
    }
  }

  /** A prefix that shares no character with the pattern's first one is copied through. */
  lemma {:induction false} ReplaceAllSkipsPrefix(p: string, q: string, pat: string, rep: string)
    requires |pat| > 0
    requires pat[0] !in p
    ensures ReplaceAll(p + q, pat, rep) == p + ReplaceAll(q, pat, rep)
    decreases |p|
  {
    if p != [] {
      var s := p + q;
      if |s| >= |pat| {
        assert s[..|pat|][0] == p[0];
      }
      assert s[1..] == p[1..] + q;
      ReplaceAllSkipsPrefix(p[1..], q, pat, rep);
    } else {
      assert p + q == q;
    }
  }

  /** Text that does not start with the pattern keeps its first character and is scanned on. */
  lemma ReplaceAllNoMatchAtStart(s: string, pat: string, rep: string)
    requires |s| > 0 && |pat| > 0
    requires !(|pat| <= |s| && s[..|pat|] == pat)
    ensures ReplaceAll(s, pat, rep) == [s[0]] + ReplaceAll(s[1..], pat, rep)
  {
    if |s| < |pat| {
      assert [s[0]] + s[1..] == s;
    }
  }

  /**
   * Every occurrence is replaced, not just the first: past a prefix that shares no character
   * with the pattern's first one, the pattern is replaced and the scan goes on in the rest.
   */
  lemma ReplaceAllStep(p: string, pat: string, s: string, rep: string)
    requires |pat| > 0
    requires pat[0] !in p
    ensures ReplaceAll(p + pat + s, pat, rep) == p + rep + ReplaceAll(s, pat, rep)
  {
    assert p + pat + s == p + (pat + s);
    ReplaceAllSkipsPrefix(p, pat + s, pat, rep);
    assert (pat + s)[..|pat|] == pat && (pat + s)[|pat|..] == s;
  }

  /**
   * `str_replace(array_keys($pairs), array_values($pairs), $s)`: the pairs are applied one
   * after the other, each to the result of the previous one.
   */
  function ReplaceEach(s: string, pairs: seq<(string, string)>): string
    decreases |pairs|
  {
    if pairs == [] then s else ReplaceEach(ReplaceAll(s, pairs[0].0, pairs[0].1), pairs[1..])
  }

  /** The pattern on its own is replaced by the replacement. */
  lemma ReplaceAllWhole(pat: string, rep: string)
    requires |pat| > 0
    ensures ReplaceAll(pat, pat, rep) == rep
  {
    assert pat[..|pat|] == pat;
    assert pat[|pat|..] == [];
  }

  /** One pair applied to a text made of a clean prefix and the pattern replaces just the pattern. */
  lemma ReplaceEachSingle(p: string, pat: string, rep: string)
    requires |pat| > 0 && pat[0] !in p
    ensures ReplaceEach(p + pat, [(pat, rep)]) == p + rep
  {
    ReplaceAllSkipsPrefix(p, pat, pat, rep);
    ReplaceAllWhole(pat, rep);
    assert [(pat, rep)][1..] == [];
  }

  /** Text holding none of the patterns comes back from `ReplaceEach` unchanged. */
  lemma {:induction false} ReplaceEachAbsent(s: string, pairs: seq<(string, string)>)
    requires forall k, j :: 0 <= k < |pairs| ==> !OccursAt(s, pairs[k].0, j)
    ensures ReplaceEach(s, pairs) == s
    decreases |pairs|
  {
    if pairs != [] {
      forall j ensures !OccursAt(s, pairs[0].0, j) {
        assert !OccursAt(s, pairs[0].0, j);
      }
      ReplaceAllAbsent(s, pairs[0].0, pairs[0].1);
      forall k, j | 0 <= k < |pairs[1..]| ensures !OccursAt(s, pairs[1..][k].0, j) {
        assert pairs[1..][k] == pairs[k + 1];
      }
      ReplaceEachAbsent(s, pairs[1..]);
    }
  }

  predicate IsDigit(c: char)
  {
    '0' <= c <= '9'
  }

  predicate AllDigits(s: string)
  {
    forall i :: 0 <= i < |s| ==> IsDigit(s[i])
  }

  /** The longest prefix of `s` made of decimal digits. */
  function LeadingDigits(s: string): (r: string)
    ensures AllDigits(r)
    ensures r <= s
    ensures |r| < |s| ==> !IsDigit(s[|r|])
  {
    if s == [] || !IsDigit(s[0]) then [] else [s[0]] + LeadingDigits(s[1..])
  }

  /** The number a string of decimal digits denotes. */
  function DigitsValue(ds: string): nat
    requires AllDigits(ds)
  {
    if ds == [] then 0
    else DigitsValue(ds[..|ds| - 1]) * 10 + (ds[|ds| - 1] as int - '0' as int)
  }

  function DigitChar(d: nat): (c: char)
    requires d < 10
    ensures IsDigit(c) && c as int - '0' as int == d
  {
    ('0' as int + d) as char
  }

  /** The decimal digits of `n`, most significant first, without leading zeros. */
  function NatToDigits(n: nat): (r: string)
    ensures |r| > 0 && AllDigits(r)
  {
    if n < 10 then [DigitChar(n)] else NatToDigits(n / 10) + [DigitChar(n % 10)]
  }

  /** PHP's conversion of an integer to a string. */
  function IntToString(n: int): string
  {
    if n < 0 then "-" + NatToDigits(-n) else NatToDigits(n)
  }

  predicate IsSpace(c: char)
  {
    c == ' ' || c == '\t' || c == '\n' || c == '\r' || c == '\U{B}' || c == '\U{C}'
  }

  function TrimLeft(s: string): (r: string)
    ensures r <= s || (|r| <= |s| && r == s[|s| - |r|..])
    ensures r != [] ==> !IsSpace(r[0])
  {
    if s != [] && IsSpace(s[0]) then TrimLeft(s[1..]) else s
  }

  /**
   * PHP's `intval` on a string: leading white space, an optional sign, then the longest run of
   * decimal digits; a string without leading digits is 0.
   */
  function IntVal(s: string): int
  {
    var t := TrimLeft(s);
    if t != [] && t[0] == '-' then -(DigitsValue(LeadingDigits(t[1..])) as int)
    else if t != [] && t[0] == '+' then DigitsValue(LeadingDigits(t[1..]))
    else DigitsValue(LeadingDigits(t))
  }

  /** PHP's `boolval` on a string: only "" and "0" are false. */
  predicate Truthy(s: string)
  {
    s != "" && s != "0"
  }

  lemma {:induction false} DigitsValueOfNatToDigits(n: nat)
    ensures DigitsValue(NatToDigits(n)) == n
  {
    if n >= 10 {
      var ds := NatToDigits(n);
      assert ds[..|ds| - 1] == NatToDigits(n / 10);
      DigitsValueOfNatToDigits(n / 10);
    }
  }

  lemma {:induction false} LeadingDigitsOfDigits(ds: string)
    requires AllDigits(ds)
    ensures LeadingDigits(ds) == ds
  {
    if ds != [] {
      LeadingDigitsOfDigits(ds[1..]);
      assert [ds[0]] + ds[1..] == ds;
    }
  }

  /** Round trip: `intval((string) $n) == $n` for every integer. */
  lemma IntValOfIntToString(n: int)
    ensures IntVal(IntToString(n)) == n
  {
    var m: nat := if n < 0 then -n else n;
    var ds := NatToDigits(m);
    LeadingDigitsOfDigits(ds);
    DigitsValueOfNatToDigits(m);
    if n < 0 {
      var s := "-" + ds;
      assert TrimLeft(s) == s;
      assert s[1..] == ds;
    } else {
      assert TrimLeft(ds) == ds;
    }
  }

  /** `ds` followed by text that does not go on with a digit has `ds` as its leading digits. */
  lemma {:induction false} LeadingDigitsOfPrefix(ds: string, rest: string)
    requires AllDigits(ds)
    requires rest == [] || !IsDigit(rest[0])
    ensures LeadingDigits(ds + rest) == ds
    decreases |ds|
  {
    if ds == [] {
      assert ds + rest == rest;
    } else {
      assert (ds + rest)[1..] == ds[1..] + rest;
      LeadingDigitsOfPrefix(ds[1..], rest);
      assert [ds[0]] + ds[1..] == ds;
    }
  }

  /** White space in front of text is what `TrimLeft` removes. */
  lemma {:induction false} TrimLeftOfSpaces(ws: string, s: string)
    requires forall i :: 0 <= i < |ws| ==> IsSpace(ws[i])
    requires s == [] || !IsSpace(s[0])
    ensures TrimLeft(ws + s) == s
    decreases |ws|
  {
    if ws == [] {
      assert ws + s == s;
    } else {
      assert (ws + s)[1..] == ws[1..] + s;
      TrimLeftOfSpaces(ws[1..], s);
    }
  }

  /**
   * `intval` reads a leading integer: white space, an optional sign, and the digits up to the
   * first character that is not one, so `"12abc"` is 12, `" -7x"` is -7 and `"1.9"` is 1.
   */
  lemma IntValLeadingInteger(ws: string, sign: string, ds: string, rest: string)
    requires forall i :: 0 <= i < |ws| ==> IsSpace(ws[i])
    requires sign in {"", "+", "-"}
    requires AllDigits(ds) && ds != []
    requires rest == [] || !IsDigit(rest[0])
    ensures IntVal(ws + sign + ds + rest) == if sign == "-" then -(DigitsValue(ds) as int) else DigitsValue(ds)
  {
    var t := sign + ds + rest;
    assert ws + sign + ds + rest == ws + t;
    if sign == "" {
      assert t == ds + rest;
      IntValOfDigits(ws, ds, rest);
    } else {
      assert t == [sign[0]] + (ds + rest);
      IntValOfSigned(ws, sign[0], ds, rest);
    }
  }

  lemma IntValOfDigits(ws: string, ds: string, rest: string)
    requires forall i :: 0 <= i < |ws| ==> IsSpace(ws[i])
    requires AllDigits(ds) && ds != []
    requires rest == [] || !IsDigit(rest[0])
    ensures IntVal(ws + (ds + rest)) == DigitsValue(ds)
  {
    var t := ds + rest;
    assert t[0] == ds[0];
    TrimLeftOfSpaces(ws, t);
    LeadingDigitsOfPrefix(ds, rest);
  }

  lemma IntValOfSigned(ws: string, c: char, ds: string, rest: string)
    requires forall i :: 0 <= i < |ws| ==> IsSpace(ws[i])
    requires c == '+' || c == '-'
    requires AllDigits(ds) && ds != []
    requires rest == [] || !IsDigit(rest[0])
    ensures IntVal(ws + ([c] + (ds + rest))) == if c == '-' then -(DigitsValue(ds) as int) else DigitsValue(ds)
  {
    var t := [c] + (ds + rest);
    assert t[0] == c && t[1..] == ds + rest;
    TrimLeftOfSpaces(ws, t);
    LeadingDigitsOfPrefix(ds, rest);
  }

  /** Text that, after white space and an optional sign, does not start with a digit reads as 0. */
  lemma IntValNoDigits(s: string)
    requires var t := TrimLeft(s);
             var u := if t != [] && (t[0] == '-' || t[0] == '+') then t[1..] else t;
             u == [] || !IsDigit(u[0])
    ensures IntVal(s) == 0
  {
  }

  /** Text without `$` holds no pattern that starts with `$`, so `ReplaceAll` leaves it alone. */
  lemma ReplaceAllDollarFree(s: string, pat: string, rep: string)
    requires '$' !in s && |pat| > 0 && pat[0] == '$'
    ensures ReplaceAll(s, pat, rep) == s
  {
    forall j | 0 <= j && j + |pat| <= |s| ensures !OccursAt(s, pat, j) {
      assert s[j..j + |pat|][0] == s[j];
    }
    ReplaceAllAbsent(s, pat, rep);
  }

  /** A pattern whose only `$` is its first character is replaced where it stands in `$`-free text. */
  lemma ReplaceAllHit(p: string, pat: string, q: string, rep: string)
    requires '$' !in p && '$' !in q
    requires |pat| > 0 && pat[0] == '$' && '$' !in pat[1..]
    ensures ReplaceAll(p + pat + q, pat, rep) == p + rep + q
  {
    assert p + pat + q == p + (pat + q);
    ReplaceAllSkipsPrefix(p, pat + q, pat, rep);
    assert (pat + q)[..|pat|] == pat && (pat + q)[|pat|..] == q;
    ReplaceAllDollarFree(q, pat, rep);
  }

  /** A `$` pattern that the text does not start with at its one `$` is not found anywhere. */
  lemma ReplaceAllMiss(p: string, pat: string, q: string, other: string, rep: string)
    requires '$' !in p && '$' !in q
    requires |pat| > 0 && '$' !in pat[1..]
    requires |other| > 0 && other[0] == '$'
    requires !(|other| <= |pat + q| && (pat + q)[..|other|] == other)
    ensures ReplaceAll(p + pat + q, other, rep) == p + pat + q
  {
    assert p + pat + q == p + (pat + q);
    ReplaceAllSkipsPrefix(p, pat + q, other, rep);
    var s := pat + q;
    if |other| <= |s| {
      assert s[1..] == pat[1..] + q;
      ReplaceAllDollarFree(s[1..], other, rep);
      assert [s[0]] + s[1..] == s;
    }
  }

  /**
   * `ReplaceEach` on `$`-free text around one pattern: the pair with that pattern replaces it,
   * and no other pair finds anything, before or after (the replacement has no `$` either).
   */
  lemma {:induction false} ReplaceEachOne(p: string, pat: string, q: string, pairs: seq<(string, string)>, m: nat)
    requires m < |pairs| && pairs[m].0 == pat
    requires forall i :: 0 <= i < |pairs| ==> |pairs[i].0| > 0 && pairs[i].0[0] == '$'
    requires '$' !in p && '$' !in q && '$' !in pairs[m].1 && '$' !in pat[1..]
    requires forall i :: 0 <= i < |pairs| && i != m ==>
               !(|pairs[i].0| <= |pat + q| && (pat + q)[..|pairs[i].0|] == pairs[i].0)
    ensures ReplaceEach(p + pat + q, pairs) == p + pairs[m].1 + q
    decreases |pairs|
  {
    var rest := pairs[1..];
    forall i | 0 <= i < |rest| ensures |rest[i].0| > 0 && rest[i].0[0] == '$' {
      assert rest[i] == pairs[i + 1];
    }
    if m == 0 {
      ReplaceAllHit(p, pat, q, pairs[0].1);
      var s := p + pairs[0].1 + q;
      forall k, j | 0 <= k < |rest| && 0 <= j && j + |rest[k].0| <= |s|
        ensures !OccursAt(s, rest[k].0, j)
      {
        assert s[j..j + |rest[k].0|][0] == s[j];
      }
      ReplaceEachAbsent(s, rest);
    } else {
      ReplaceAllMiss(p, pat, q, pairs[0].0, pairs[0].1);
      forall i | 0 <= i < |rest| && i != m - 1
        ensures !(|rest[i].0| <= |pat + q| && (pat + q)[..|rest[i].0|] == rest[i].0)
      {
        assert rest[i] == pairs[i + 1];
      }
      ReplaceEachOne(p, pat, q, rest, m - 1);
    }
  }
}
