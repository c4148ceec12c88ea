/** The value of a redirect option: a resource and, behind the last colon, its priority. */
module RedirectNames {
  import opened Prelude
  import opened Text

  /** A signed 32-bit decimal number, with an optional sign. */
  function ParseI32(s: string): Option<int> {
    var negative := s != "" && s[0] == '-';
    var digits := if negative || (s != "" && s[0] == '+') then s[1..] else s;
    if digits == "" || !AllDigits(digits) then None
    else
      var size: int := Decimal(digits);
      var n := if negative then -size else size;
      if -0x8000_0000 <= n < 0x8000_0000 then Some(n) else None
  }

  predicate AllDigits(s: string) {
    forall i :: 0 <= i < |s| ==> '0' <= s[i] <= '9'
  }

  function Decimal(digits: string): nat
    requires AllDigits(digits)
  {
    if digits == "" then 0
    else Decimal(digits[..|digits| - 1]) * 10 + (digits[|digits| - 1] as nat - '0' as nat)
  }

  /** A resource and, after the last colon, its priority. What is not a number belongs to the name. */
  function ParseRedirect(redirect: string): (string, int) {
    var colon := FindLast(redirect, ':', |redirect|);
    if colon.Some? && ParseI32(redirect[colon.value + 1..]).Some?
    then (redirect[..colon.value], ParseI32(redirect[colon.value + 1..]).value) else (redirect, 0)
  }

  /** A number in decimal, as it is written. */
  function Numeral(n: int): string {
    if n < 0 then "-" + Digits(-n) else Digits(n)
  }

  function Digits(n: nat): string {
    if n < 10 then [('0' as int + n) as char] else Digits(n / 10) + [('0' as int + n % 10) as char]
  }

  lemma {:induction false} DigitsParse(n: nat)
    ensures Digits(n) != "" && AllDigits(Digits(n))
    ensures Decimal(Digits(n)) == n
  {
    if n >= 10 {
      DigitsParse(n / 10);
      var front := Digits(n / 10);
      assert Digits(n)[..|front|] == front;
    } else {
      assert Digits(n)[..0] == "";
    }
  }

  lemma NumeralParses(n: int)
    requires -0x8000_0000 <= n < 0x8000_0000
    ensures ParseI32(Numeral(n)) == Some(n) && ':' !in Numeral(n)
  {
    var size := if n < 0 then -n else n;
    DigitsParse(size);
    if n < 0 {
      assert Numeral(n)[1..] == Digits(size);
    }
  }

  /** A resource with a priority is read as both, whatever 32-bit number that is. */
  lemma RedirectRoundTrip(name: string, priority: int)
    requires -0x8000_0000 <= priority < 0x8000_0000
    ensures ParseRedirect(name + ":" + Numeral(priority)) == (name, priority)
  {
    NumeralParses(priority);
    LastColon(name, Numeral(priority));
  }

  lemma LastColon(name: string, rest: string)
    requires ':' !in rest
    ensures var s := name + ":" + rest;
            FindLast(s, ':', |s|) == Some(|name|) && s[|name| + 1..] == rest && s[..|name|] == name
  {
    var s := name + ":" + rest;
    assert s[|name|] == ':' && forall i :: |name| < i < |s| ==> s[i] == rest[i - |name| - 1] != ':';
  }

  /** A name without a number behind its last colon, or without a colon, has priority 0. */
  lemma PlainRedirect(redirect: string)
    requires forall k :: 0 <= k < |redirect| && redirect[k] == ':' ==>
               ':' in redirect[k + 1..] || !IsNumeral(redirect[k + 1..])
    ensures ParseRedirect(redirect) == (redirect, 0)
  {
    var found := FindLast(redirect, ':', |redirect|);
    if found.Some? && ParseI32(redirect[found.value + 1..]).Some? {
      assert ':' !in redirect[found.value + 1..];
      NumeralsParse(redirect[found.value + 1..]);
    }
  }

  /** Digits, with a sign or without. */
  predicate IsNumeral(s: string) {
    s != "" && (AllDigits(s) || ((s[0] == '-' || s[0] == '+') && s != [s[0]] && AllDigits(s[1..])))
  }

  lemma NumeralsParse(s: string)
    requires ParseI32(s).Some?
    ensures IsNumeral(s) && -0x8000_0000 <= ParseI32(s).value < 0x8000_0000
  {
    assert s != "" && s[1..] == "" ==> s == [s[0]];
  }
}
