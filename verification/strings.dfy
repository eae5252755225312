/**
 * The JavaScript string operations the handlers rely on: `startsWith`,
 * `includes`, `trim`, `substring(0, n)` and `split(' ')[1]`.
 * Strings are sequences of UTF-16 code units in the source; here each `char`
 * stands for one Unicode code point, so a character outside the Basic
 * Multilingual Plane is one `char` here and two code units there.
 */
module Strings {

  import opened Optional

  predicate StartsWith(s: string, prefix: string) {
    |prefix| <= |s| && s[..|prefix|] == prefix
  }

  predicate OccursAt(s: string, sub: string, i: int) {
    0 <= i <= |s| - |sub| && s[i..i + |sub|] == sub
  }

  /** JavaScript `s.includes(sub)`. */
  predicate Contains(s: string, sub: string) {
    exists i | 0 <= i <= |s| - |sub| :: OccursAt(s, sub, i)
  }

  /** The characters `String.prototype.trim` removes: WhiteSpace and LineTerminator of ECMA-262. */
  predicate IsJsSpace(c: char) {
    || c == '\t' || c == '\n' || c == '\U{000B}' || c == '\U{000C}' || c == '\r' || c == ' '
    || c == '\U{00A0}' || c == '\U{1680}' || ('\U{2000}' <= c <= '\U{200A}')
    || c == '\U{2028}' || c == '\U{2029}' || c == '\U{202F}' || c == '\U{205F}'
    || c == '\U{3000}' || c == '\U{FEFF}'
  }

  predicate AllSpace(s: string) {
    forall i | 0 <= i < |s| :: IsJsSpace(s[i])
  }

  /** The index of the first non-whitespace character at or after `i`, or `|s|`. */
  function SkipSpaces(s: string, i: nat): (j: nat)
    requires i <= |s|
    ensures i <= j <= |s|
    ensures forall k | i <= k < j :: IsJsSpace(s[k])
    ensures j < |s| ==> !IsJsSpace(s[j])
    decreases |s| - i
  {
    if i == |s| || !IsJsSpace(s[i]) then i else SkipSpaces(s, i + 1)
  }

  /** The end of `s[..j]` without its trailing whitespace, never below `lo`. */
  function BackSpaces(s: string, lo: nat, j: nat): (e: nat)
    requires lo <= j <= |s|
    ensures lo <= e <= j
    ensures forall k | e <= k < j :: IsJsSpace(s[k])
    ensures e > lo ==> !IsJsSpace(s[e - 1])
    decreases j
  {
    if j == lo || !IsJsSpace(s[j - 1]) then j else BackSpaces(s, lo, j - 1)
  }

  /** JavaScript `s.trim()`: the slice of `s` between its leading and trailing whitespace. */
  function Trim(s: string): (r: string)
    ensures |r| <= |s|
    ensures |r| > 0 ==> !IsJsSpace(r[0]) && !IsJsSpace(r[|r| - 1])
    ensures exists lo | 0 <= lo <= |s| - |r| ::
              s[lo..lo + |r|] == r && AllSpace(s[..lo]) && AllSpace(s[lo + |r|..])
  {
    var lo := SkipSpaces(s, 0);
    var hi := BackSpaces(s, lo, |s|);
    var r := s[lo..hi];
    assert |r| > 0 ==> r[0] == s[lo] && r[|r| - 1] == s[hi - 1];
    assert AllSpace(s[..lo]) by {
      forall k | 0 <= k < lo ensures IsJsSpace(s[..lo][k]) {
        assert s[..lo][k] == s[k];
      }
    }
    assert AllSpace(s[hi..]) by {
      forall k | 0 <= k < |s| - hi ensures IsJsSpace(s[hi..][k]) {
        assert s[hi..][k] == s[hi + k];
      }
    }
    r
  }

  /** Trimming an already trimmed string changes nothing. */
  lemma {:induction false} TrimIdempotent(s: string)
    ensures Trim(Trim(s)) == Trim(s)
  {
    var r := Trim(s);
    assert SkipSpaces(r, 0) == 0;
    assert BackSpaces(r, 0, |r|) == |r|;
    assert r[0..|r|] == r;
  }


  /** JavaScript `s.substring(0, n)` for a non-negative `n`: the first `n` characters, or all of them. */
  function Truncate(s: string, n: nat): (r: string)
    ensures |r| == if |s| <= n then |s| else n
    ensures StartsWith(s, r)
  {
    if |s| <= n then s else s[..n]
  }

  /** The characters of `s` up to (not including) its first space. */
  function UntilSpace(s: string): (r: string)
    ensures StartsWith(s, r)
    ensures ' ' !in r
    ensures |r| == |s| || s[|r|] == ' '
  {
    if |s| == 0 || s[0] == ' ' then ""
    else [s[0]] + UntilSpace(s[1..])
  }

  /**
   * JavaScript `s.split(' ')[1]`: the field after the first space, or
   * `None` (JavaScript `undefined`) when `s` has no space.
   */
  function SecondField(s: string): (r: Option<string>)
    ensures r.None? <==> ' ' !in s
    ensures r.Some? ==> ' ' !in r.value
    ensures r.Some? ==> exists k | 0 <= k < |s| ::
              && s[k] == ' ' && ' ' !in s[..k] && StartsWith(s[k + 1..], r.value)
              && (k + 1 + |r.value| == |s| || s[k + 1 + |r.value|] == ' ')
  {
    var first := UntilSpace(s);
    if |first| == |s| then
      assert s[..|first|] == s;
      None
    else
      var rest := s[|first| + 1..];
      assert s[..|first|] == first;
      Some(UntilSpace(rest))
  }

  /** The field before the first space is the whole of a text without spaces, and stops at the first space otherwise. */
  lemma UntilSpaceOf(p: string, rest: string)
    requires ' ' !in p
    ensures UntilSpace(p) == p
    ensures UntilSpace(p + [' '] + rest) == p
  {
    var r := UntilSpace(p);
    assert p[..|r|] == r;
    var s := p + [' '] + rest;
    var t := UntilSpace(s);
    assert forall i | 0 <= i < |t| :: t[i] == s[i] && s[i] != ' ';
    assert forall i | 0 <= i < |p| :: s[i] == p[i] && p[i] != ' ';
    assert s[|p|] == ' ';
    assert |t| == |p|;
    assert s[..|p|] == p;
  }

  /** The second field of `p + " " + q`, when `p` has no space, is `q` up to its own first space. */
  lemma SecondFieldOf(p: string, q: string)
    requires ' ' !in p
    ensures SecondField(p + [' '] + q) == Some(UntilSpace(q))
  {
    UntilSpaceOf(p, q);
    assert (p + [' '] + q)[|p| + 1..] == q;
  }

  /** The moderator's `/reject 42` names user 42; a doubled space leaves an empty second field. */
  lemma SecondFieldExamples()
    ensures SecondField("/reject 42") == Some("42")
    ensures SecondField("/reject  42") == Some("")
  {
    RejectFieldExample();
    DoubleSpaceFieldExample();
  }

  lemma RejectFieldExample()
    ensures SecondField("/reject 42") == Some("42")
  {
    SecondFieldOfReject("42");
    assert "/reject " + "42" == "/reject 42";
    UntilSpaceOf("42", "");
  }

  lemma DoubleSpaceFieldExample()
    ensures SecondField("/reject  42") == Some("")
  {
    SecondFieldOfReject(" 42");
    assert "/reject " + " 42" == "/reject  42";
    assert UntilSpace(" 42") == "";
  }

  /** The second field of `/reject` followed by one space and `q`. */
  lemma SecondFieldOfReject(q: string)
    ensures SecondField("/reject " + q) == Some(UntilSpace(q))
  {
    assert ' ' !in "/reject";
    SecondFieldOf("/reject", q);
    assert "/reject" + [' '] + q == "/reject " + q;
  }

  predicate IsDigit(c: char) { '0' <= c <= '9' }

  /** A non-empty run of decimal digits. */
  predicate AllDigits(s: string) {
    |s| > 0 && forall i | 0 <= i < |s| :: IsDigit(s[i])
  }

  function DigitsValue(s: string): (n: nat)
    requires forall i | 0 <= i < |s| :: IsDigit(s[i])
  {
    if |s| == 0 then 0
    else
      assert IsDigit(s[|s| - 1]);
      DigitsValue(s[..|s| - 1]) * 10 + (s[|s| - 1] as int - '0' as int)
  }

  /**
   * The integer a text user id denotes when SQLite compares it with an
   * INTEGER column: an optional minus sign followed by at least one digit.
   * Any other text never equals an integer id.
   */
  function ParseInteger(s: string): (r: Option<int>)
    ensures r.Some? <==> AllDigits(s) || (|s| > 0 && s[0] == '-' && AllDigits(s[1..]))
    ensures r.Some? && s[0] != '-' ==> r.value >= 0
    ensures r.Some? && s[0] == '-' ==> r.value <= 0
  {
    if |s| > 0 && s[0] == '-' then
      var d := s[1..];
      if AllDigits(d) then Some(0 - DigitsValue(d) as int) else None
    else if AllDigits(s) then Some(DigitsValue(s))
    else None
  }

  /** The decimal digit of a value below ten. */
  function DigitChar(d: nat): (c: char)
    requires d < 10
    ensures IsDigit(c)
  {
    ('0' as int + d) as char
  }

  /** The decimal text of a natural number, without leading zeros: JavaScript `String(n)`. */
  function NatText(n: nat): (s: string)
    ensures forall i | 0 <= i < |s| :: IsDigit(s[i])
    ensures |s| > 0
    decreases n
  {
    if n < 10 then [DigitChar(n)] else NatText(n / 10) + [DigitChar(n % 10)]
  }

  /** The decimal text of an integer: JavaScript `String(n)`. */
  function IntText(n: int): string {
    if n < 0 then "-" + NatText(-n) else NatText(n)
  }

  lemma {:induction false} DigitsValueOfNatText(n: nat)
    decreases n
    ensures DigitsValue(NatText(n)) == n
  {
    var s := NatText(n);
    if n >= 10 {
      DigitsValueOfNatText(n / 10);
      assert s[..|s| - 1] == NatText(n / 10);
    }
  }

  /**
   * Reading back the decimal text of an id gives the id: the moderator who
   * types `String(id)` after `/reject` names exactly that user.
   */
  lemma ParseIntegerOfIntText(n: int)
    ensures ParseInteger(IntText(n)) == Some(n)
  {
    if n < 0 {
      DigitsValueOfNatText(-n);
      assert IntText(n)[1..] == NatText(-n);
    } else {
      DigitsValueOfNatText(n);
    }
  }

  /** `m` zero digits. */
  function Zeros(m: nat): (z: string)
    ensures |z| == m && forall i | 0 <= i < m :: z[i] == '0'
  {
    seq(m, _ => '0')
  }

  lemma {:induction false} DigitsValueOfZeros(m: nat)
    decreases m
    ensures DigitsValue(Zeros(m)) == 0
  {
    if m > 0 {
      assert Zeros(m)[..m - 1] == Zeros(m - 1);
      DigitsValueOfZeros(m - 1);
    }
  }

  /** Leading zeros do not change the value of a digit run. */
  lemma {:induction false} DigitsValueLeadingZeros(m: nat, s: string)
    requires forall i | 0 <= i < |s| :: IsDigit(s[i])
    decreases |s|
    ensures forall i | 0 <= i < |Zeros(m) + s| :: IsDigit((Zeros(m) + s)[i])
    ensures DigitsValue(Zeros(m) + s) == DigitsValue(s)
  {
    var t := Zeros(m) + s;
    assert forall i | 0 <= i < |t| :: IsDigit(t[i]) by {
      forall i | 0 <= i < |t| ensures IsDigit(t[i]) {
        if i < m { assert t[i] == '0'; } else { assert t[i] == s[i - m]; }
      }
    }
    if |s| == 0 {
      assert t == Zeros(m);
      DigitsValueOfZeros(m);
    } else {
      assert t[..|t| - 1] == Zeros(m) + s[..|s| - 1];
      DigitsValueLeadingZeros(m, s[..|s| - 1]);
    }
  }

  /**
   * A target typed with leading zeros, after the minus sign if any, still
   * names the same id, as SQLite's integer reading of `/reject 0777` does.
   */
  lemma ParseIntegerLeadingZeros(m: nat, n: int)
    ensures n >= 0 ==> ParseInteger(Zeros(m) + IntText(n)) == Some(n)
    ensures n < 0 ==> ParseInteger("-" + Zeros(m) + NatText(-n)) == Some(n)
  {
    if n >= 0 {
      ZerosNatText(m, n);
    } else {
      var z := Zeros(m) + NatText(-n);
      ZerosNatText(m, -n);
      assert ("-" + Zeros(m) + NatText(-n))[1..] == z;
    }
  }

  /** Zeros before the decimal text of `n` form a digit run worth `n`. */
  lemma ZerosNatText(m: nat, n: nat)
    ensures AllDigits(Zeros(m) + NatText(n))
    ensures ParseInteger(Zeros(m) + NatText(n)) == Some(n)
  {
    var z := Zeros(m) + NatText(n);
    DigitsValueOfNatText(n);
    DigitsValueLeadingZeros(m, NatText(n));
    assert IsDigit(z[0]);
  }
}
