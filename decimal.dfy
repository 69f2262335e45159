/** Python's `str()` of an integer: base-ten digits without leading zeros,
    preceded by '-' when the value is negative. `json.dumps` renders integers
    the same way. */
module Decimal {
  import opened Wrappers

  predicate IsDigit(c: char) {
    '0' <= c <= '9'
  }

  predicate AllDigits(s: string) {
    forall k | 0 <= k < |s| :: IsDigit(s[k])
  }

  function DigitChar(d: int): (c: char)
    requires 0 <= d < 10
    ensures IsDigit(c) && c as int - '0' as int == d
  {
    ('0' as int + d) as char
  }

  /** The digits of a natural number, most significant first. */
  function Digits(n: nat): (s: string)
    ensures s != [] && AllDigits(s)
    ensures s[0] == '0' ==> n == 0
  {
    if n < 10 then [DigitChar(n)] else Digits(n / 10) + [DigitChar(n % 10)]
  }

  /** `str(n)`. */
  function Show(n: int): (s: string)
    ensures s != []
    ensures s[0] == '-' <==> n < 0
    ensures AllDigits(s[1..]) && (n >= 0 ==> IsDigit(s[0]))
  {
    if n < 0 then "-" + Digits(-n) else Digits(n)
  }

  /** The value of a string of digits. */
  function ValueOf(s: string): nat
    requires AllDigits(s)
  {
    if s == [] then 0
    else
      ValueOf(s[..|s| - 1]) * 10 + (s[|s| - 1] as int - '0' as int)
  }

  /** The length of the longest prefix of `s` made of digits. */
  function DigitRun(s: string): (k: nat)
    ensures k <= |s| && AllDigits(s[..k])
    ensures k < |s| ==> !IsDigit(s[k])
  {
    if s != [] && IsDigit(s[0]) then
      var k := 1 + DigitRun(s[1..]);
      assert forall j | 1 <= j < k :: s[..k][j] == s[1..][..k - 1][j - 1];
      k
    else 0
  }

  /** Reads a natural number from the front of `s`: the longest run of digits,
      which must not be empty. Returns the value and what follows it. */
  function ParseNat(s: string): (r: Option<(nat, string)>)
    ensures r.Some? ==> |r.value.1| < |s|
  {
    var k := DigitRun(s);
    if k == 0 then None else Some((ValueOf(s[..k]), s[k..]))
  }

  /** Reads an integer, with an optional leading '-', from the front of `s`. */
  function ParseInt(s: string): (r: Option<(int, string)>)
    ensures r.Some? ==> |r.value.1| < |s|
  {
    if s != [] && s[0] == '-' then
      match ParseNat(s[1..])
      case None => None
      case Some((v, rest)) => Some((-(v as int), rest))
    else
      match ParseNat(s)
      case None => None
      case Some((v, rest)) => Some((v as int, rest))
  }

  predicate StartsWithDigit(s: string) {
    s != [] && IsDigit(s[0])
  }

  lemma {:induction false} ValueOfDigits(n: nat)
    ensures ValueOf(Digits(n)) == n
  {
    if n >= 10 {
      var s := Digits(n);
      assert s[..|s| - 1] == Digits(n / 10);
      ValueOfDigits(n / 10);
    }
  }

  /** `DigitRun` is the only length whose prefix is all digits and is not
      followed by a digit. */
  lemma {:induction false} DigitRunUnique(s: string, k: nat)
    requires k <= |s| && AllDigits(s[..k])
    requires k < |s| ==> !IsDigit(s[k])
    ensures DigitRun(s) == k
  {
    if k > 0 {
      assert s[..k][0] == s[0];
      assert s[1..][..k - 1] == s[..k][1..];
      DigitRunUnique(s[1..], k - 1);
    }
  }

  /** The digit run of a digit string followed by a non-digit is that string. */
  lemma DigitRunOf(d: string, rest: string)
    requires AllDigits(d) && !StartsWithDigit(rest)
    ensures DigitRun(d + rest) == |d|
  {
    var s := d + rest;
    assert s[..|d|] == d;
    assert |d| < |s| ==> s[|d|] == rest[0];
    DigitRunUnique(s, |d|);
  }

  lemma ParseNatDigits(n: nat, rest: string)
    requires !StartsWithDigit(rest)
    ensures ParseNat(Digits(n) + rest) == Some((n, rest))
  {
    var d := Digits(n);
    DigitRunOf(d, rest);
    assert (d + rest)[..|d|] == d && (d + rest)[|d|..] == rest;
    ValueOfDigits(n);
  }

  /** Round trip: reading back the rendering of `n`, when no digit follows it,
      gives `n` and leaves the rest untouched. */
  lemma ParseShow(n: int, rest: string)
    requires !StartsWithDigit(rest)
    ensures ParseInt(Show(n) + rest) == Some((n, rest))
  {
    if n < 0 {
      var d := Digits(-n);
      ParseNatDigits(-n, rest);
      var s := "-" + (d + rest);
      assert Show(n) + rest == s;
      assert s[0] == '-' && s[1..] == d + rest;
    } else {
      var d := Digits(n);
      ParseNatDigits(n, rest);
      assert Show(n) + rest == d + rest;
      assert IsDigit((d + rest)[0]);
    }
  }

  /** Different integers render differently. */
  lemma ShowInjective(m: int, n: int)
    requires Show(m) == Show(n)
    ensures m == n
  {
    ParseShow(m, []);
    ParseShow(n, []);
    assert Show(m) + [] == Show(m) && Show(n) + [] == Show(n);
  }
}
