/** itoa and atoi (kernel.c). */
module Numerals {
  import opened CString

  /** int on the target: an operation that leaves the range is an error. */
  newtype int32 = x: int | -0x8000_0000 <= x < 0x8000_0000

  predicate IsDigit(c: char) {
    '0' <= c <= '9'
  }

  function DigitOf(d: nat): (c: char)
    requires d < 10
    ensures IsDigit(c) && ValueOf(c) == d
  {
    ('0' as int + d) as char
  }

  function ValueOf(c: char): nat
    requires IsDigit(c)
  {
    c as int - '0' as int
  }

  /** `n` in decimal digits, without leading zeros. */
  function Digits(n: nat): (s: seq<char>)
    ensures s != []
  {
    (if n < 10 then [] else Digits(n / 10)) + [DigitOf(n % 10)]
  }

  function Decimal(n: int): seq<char> {
    if n < 0 then ['-'] + Digits(-n) else Digits(n)
  }

  predicate AllDigits(s: seq<char>) {
    forall i :: 0 <= i < |s| ==> IsDigit(s[i])
  }

  /** The number that digits stand for. */
  function Value(s: seq<char>): nat
    requires AllDigits(s)
  {
    if s == [] then 0 else Value(s[..|s| - 1]) * 10 + ValueOf(s[|s| - 1])
  }

  /** The digits that `s` starts with. */
  function DigitPrefix(s: seq<char>): (d: seq<char>)
    ensures |d| <= |s| && d == s[..|d|] && AllDigits(d)
    ensures |d| < |s| ==> !IsDigit(s[|d|])
  {
    if s == [] || !IsDigit(s[0]) then [] else [s[0]] + DigitPrefix(s[1..])
  }

  /** The text behind a minus sign. */
  function Unsigned(s: seq<char>): seq<char> {
    if s != [] && s[0] == '-' then s[1..] else s
  }

  /** The number that `s` starts with. */
  function Parsed(s: seq<char>): int {
    var v: int := Value(DigitPrefix(Unsigned(s)));
    if s != [] && s[0] == '-' then -v else v
  }

  lemma {:induction false} DigitPrefixIs(s: seq<char>, k: nat)
    requires k <= |s| && AllDigits(s[..k]) && (k < |s| ==> !IsDigit(s[k]))
    ensures DigitPrefix(s) == s[..k]
  {
    if k > 0 {
      assert s[0] == s[..k][0] && s[1..][..k - 1] == s[..k][1..];
      DigitPrefixIs(s[1..], k - 1);
      assert s[..k] == [s[0]] + s[1..][..k - 1];
    }
  }

  // ---------- There and back ----------

  lemma {:induction false} ValueOfDigits(n: nat)
    ensures AllDigits(Digits(n)) && Value(Digits(n)) == n
    ensures Digits(n)[0] == '0' ==> n == 0
  {
    var s := Digits(n);
    if n >= 10 {
      ValueOfDigits(n / 10);
      assert s[..|s| - 1] == Digits(n / 10);
      assert s[0] == Digits(n / 10)[0];
    } else {
      assert s == [DigitOf(n)] && s[..|s| - 1] == [];
    }
  }

  function Pow10(j: nat): (p: nat)
    ensures p > 0
  {
    if j == 0 then 1 else 10 * Pow10(j - 1)
  }

  /** One more digit at the end, in a sum of places. */
  lemma Shift(x: int, p: int, w: int, last: int)
    ensures (x * p + w) * 10 + last == x * (10 * p) + (w * 10 + last)
  {
    Regrouped(x, p);
  }

  lemma Regrouped(x: int, p: int)
    ensures x * (10 * p) == 10 * (x * p)
  {
  }

  lemma ValueWithout(d: seq<char>, c: char)
    requires AllDigits(d) && IsDigit(c)
    ensures AllDigits(d + [c]) && Value(d + [c]) == Value(d) * 10 + ValueOf(c)
  {
    assert (d + [c])[..|d|] == d;
  }

  /** The number that digits stand for, place by place from the first one. */
  lemma {:induction false} ValueByPlaces(c: char, d: seq<char>)
    requires IsDigit(c) && AllDigits(d)
    ensures Value([c] + d) == (c as int - 48) * Pow10(|d|) + Value(d)
  {
    if d == [] {
      ValueWithout([], c);
      assert [] + [c] == [c] + d;
    } else {
      var (front, last) := (d[..|d| - 1], d[|d| - 1]);
      ValueByPlaces(c, front);
      ValueWithout([c] + front, last);
      ValueWithout(front, last);
      assert front + [last] == d && [c] + front + [last] == [c] + d;
      Shift(ValueOf(c), Pow10(|front|), Value(front), ValueOf(last));
    }
  }

  /** The number that a text starts with: its digits, up to the first other character, behind at most
      one minus sign. */
  lemma ParsedText(d: seq<char>, rest: seq<char>)
    requires AllDigits(d) && (rest != [] ==> !IsDigit(rest[0]))
    ensures Parsed(['-'] + (d + rest)) == 0 - Value(d)
    ensures d + rest == [] || (d + rest)[0] != '-' ==> Parsed(d + rest) == Value(d)
  {
    var s := d + rest;
    PrefixOfText(d, rest);
    assert (['-'] + s)[1..] == s;
  }

  lemma PrefixOfText(d: seq<char>, rest: seq<char>)
    requires AllDigits(d) && (rest != [] ==> !IsDigit(rest[0]))
    ensures DigitPrefix(d + rest) == d
  {
    assert (d + rest)[..|d|] == d;
    DigitPrefixIs(d + rest, |d|);
  }

  lemma {:induction false} AllOfIt(d: seq<char>)
    requires AllDigits(d)
    ensures DigitPrefix(d) == d
  {
    if d != [] {
      AllOfIt(d[1..]);
    }
  }

  /** The sign and the digits of a number. */
  lemma SignAndDigits(n: int)
    ensures Decimal(n)[0] == '-' <==> n < 0
    ensures Unsigned(Decimal(n)) == Digits(if n < 0 then -n else n)
  {
    ValueOfDigits(if n < 0 then -n else n);
  }

  /** What itoa writes, atoi reads back. */
  lemma ParsedDecimal(n: int)
    ensures Parsed(Decimal(n)) == n
  {
    SignAndDigits(n);
    ValueOfDigits(if n < 0 then -n else n);
    AllOfIt(Unsigned(Decimal(n)));
  }

  /** A number without leading zeros; zero has no sign. */
  predicate Canonical(s: seq<char>) {
    var d := Unsigned(s);
    d != [] && AllDigits(d) && (d[0] == '0' ==> s == ['0'])
  }

  lemma {:induction false} DigitsOfValue(d: seq<char>)
    requires d != [] && AllDigits(d) && d[0] != '0'
    ensures Value(d) > 0 && Digits(Value(d)) == d
  {
    var front := d[..|d| - 1];
    if front == [] {
      assert Value(front) == 0 && d == [d[0]];
    } else {
      DigitsOfValue(front);
      assert Value(d) / 10 == Value(front) && Value(d) % 10 == ValueOf(d[|d| - 1]);
    }
  }

  /** What itoa writes is such a number. */
  lemma DecimalIsCanonical(n: int)
    ensures Canonical(Decimal(n))
  {
    SignAndDigits(n);
    ValueOfDigits(if n < 0 then -n else n);
    assert n == 0 ==> Decimal(n) == [DigitOf(0)];
  }

  lemma CanonicalIsDecimal(s: seq<char>)
    requires Canonical(s)
    ensures Decimal(Parsed(s)) == s
  {
    var d := Unsigned(s);
    AllOfIt(d);
    if d[0] == '0' {
      assert d == ['0'] && Value(d) == 0;
    } else {
      DigitsOfValue(d);
      assert s[0] == '-' ==> s == ['-'] + d;
    }
  }

  /** A text survives atoi and itoa iff it is such a number. */
  lemma DecimalParsed(s: seq<char>)
    ensures Decimal(Parsed(s)) == s <==> Canonical(s)
  {
    if Canonical(s) {
      CanonicalIsDecimal(s);
    } else {
      DecimalIsCanonical(Parsed(s));
    }
  }

  // ---------- itoa ----------

  function Reversed(s: seq<char>): (r: seq<char>)
    ensures |r| == |s| && forall k :: 0 <= k < |s| ==> r[k] == s[|s| - 1 - k]
  {
    seq(|s|, k requires 0 <= k < |s| => s[|s| - 1 - k])
  }

  lemma ReversedMore(s: seq<char>, c: char)
    ensures Reversed(s + [c]) == [c] + Reversed(s)
  {
  }

  /** The digit loop of itoa: it stores the digits from the last to the first. */
  method StoreDigits(n0: int32, str: array<char>) returns (i: nat)
    requires 0 <= n0 && |Digits(n0 as int)| <= str.Length
    modifies str
    ensures i == |Digits(n0 as int)| && Reversed(str[..i]) == Digits(n0 as int)
    ensures str[i..] == old(str[i..])
  {
    i := 0;
    var n := n0;
    ghost var all := Digits(n0 as int);
    while true
      invariant 0 <= n && i + |Digits(n as int)| == |all|
      invariant all == Digits(n as int) + Reversed(str[..i])
      invariant str[i..] == old(str[i..])
      decreases n
    {
      ghost var s := str[..i];
      str[i] := DigitOf((n % 10) as nat);
      i := i + 1;
      assert str[..i] == s + [DigitOf((n % 10) as nat)];
      ReversedMore(s, DigitOf((n % 10) as nat));
      assert str[i..] == old(str[i - 1..])[1..];
      n := n / 10;
      if n == 0 {
        break;
      }
    }
  }

  /** The last loop of itoa: the first `i` characters are reversed in place. */
  method ReverseInPlace(str: array<char>, i: nat)
    requires i <= str.Length
    modifies str
    ensures str[..i] == Reversed(old(str[..i]))
    ensures str[i..] == old(str[i..])
  {
    var j := 0;
    while j < i / 2
      invariant j <= i / 2
      invariant forall k :: 0 <= k < j || i - j <= k < i ==> str[k] == old(str[i - 1 - k])
      invariant forall k :: j <= k < i - j ==> str[k] == old(str[k])
      invariant forall k :: i <= k < str.Length ==> str[k] == old(str[k])
    {
      var temp := str[j];
      str[j] := str[i - j - 1];
      str[i - j - 1] := temp;
      j := j + 1;
    }
  }

  /** The first loop of itoa and the sign: the characters of the number, from the last to the first. */
  method StoreNumber(n0: int32, str: array<char>) returns (i: nat)
    requires n0 > -0x8000_0000 && |Decimal(n0 as int)| < str.Length
    modifies str
    ensures i == |Decimal(n0 as int)| && Reversed(str[..i]) == Decimal(n0 as int)
    ensures str[i..] == old(str[i..])
  {
    var sign := n0;
    var n := if sign < 0 then -n0 else n0;
    i := StoreDigits(n, str);
    if sign < 0 {
      ghost var s, rest := str[..i], str[i..];
      str[i] := '-';
      i := i + 1;
      assert str[..i] == s + ['-'] && str[i..] == rest[1..];
      ReversedMore(s, '-');
    }
  }

  lemma NoNul(n: int)
    ensures NUL !in Decimal(n)
  {
    var d := Digits(if n < 0 then -n else n);
    ValueOfDigits(if n < 0 then -n else n);
    NoDigit(d);
    assert NUL !in ['-'] + d;
  }

  lemma NoDigit(d: seq<char>)
    requires AllDigits(d)
    ensures NUL !in d
  {
  }

  /** itoa.  The least int is excluded: its negation is no int. */
  method Itoa(n: int32, str: array<char>)
    requires n > -0x8000_0000 && |Decimal(n as int)| < str.Length
    modifies str
    ensures Text(str[..]) == Decimal(n as int)
    ensures var k := |Decimal(n as int)| + 1; str[k..] == old(str[k..])
  {
    var i := StoreNumber(n, str);
    ghost var s, rest := str[..i], str[i..];
    str[i] := NUL;
    assert str[..i] == s && str[i + 1..] == rest[1..];
    ghost var end := str[i..];
    ReverseInPlace(str, i);
    assert str[i] == end[0] && str[i + 1..] == end[1..];
    NoNul(n as int);
    PrefixIs(str[..], str.Length, i);
  }

  // ---------- atoi ----------

  lemma {:induction false} ValueGrows(s: seq<char>, k: nat)
    requires k <= |s| && AllDigits(s)
    ensures Value(s[..k]) <= Value(s)
    decreases |s|
  {
    if k < |s| {
      ValueGrows(s[..|s| - 1], k);
      assert s[..|s| - 1][..k] == s[..k];
    } else {
      assert s[..k] == s;
    }
  }

  /** One more digit, within the number that is read. */
  lemma NextDigit(t: seq<char>, k: nat)
    requires k < |t| && AllDigits(t[..k]) && IsDigit(t[k])
    ensures AllDigits(t[..k + 1]) && Value(t[..k + 1]) == Value(t[..k]) * 10 + ValueOf(t[k])
    ensures k + 1 <= |DigitPrefix(t)| && Value(t[..k + 1]) <= Value(DigitPrefix(t))
  {
    var u, d := t[..k + 1], DigitPrefix(t);
    assert u[..k] == t[..k];
    assert forall j :: 0 <= j < k ==> IsDigit(t[j]) by {
      assert forall j :: 0 <= j < k ==> t[j] == t[..k][j];
    }
    assert d[..k + 1] == u;
    ValueGrows(d, k + 1);
  }

  /** The loop of atoi: no step leaves the range of int if the number itself does not. */
  method ReadDigits(s: seq<char>) returns (num: int32)
    requires IsString(s) && Value(DigitPrefix(Text(s))) < 0x8000_0000
    ensures num as int == Value(DigitPrefix(Text(s)))
  {
    ghost var t := Text(s);
    num := 0;
    var k := 0;
    while s[k] != NUL
      invariant k <= |t| && AllDigits(t[..k]) && num as int == Value(t[..k])
      decreases |t| - k
    {
      TextGoesOn(s, k);
      if '0' <= s[k] <= '9' {
        NextDigit(t, k);
        num := num * 10 + ValueOf(s[k]) as int32;
      } else {
        break;
      }
      k := k + 1;
    }
    if s[k] == NUL {
      TextEnds(s, k);
    }
    DigitPrefixIs(t, k);
  }

  /** atoi, for a number that is an int. */
  method Atoi(s: seq<char>) returns (r: int32)
    requires IsString(s) && -0x8000_0000 < Parsed(Text(s)) < 0x8000_0000
    ensures r as int == Parsed(Text(s))
  {
    var sign, start := 1, 0;
    if s[0] == '-' {
      sign := -1;
      start := 1;
      assert Text(s)[1..] == Text(s[1..]) by {
        SignedText(s);
      }
    }
    var num := ReadDigits(s[start..]);
    r := sign * num;
  }

  lemma SignedText(s: seq<char>)
    requires IsString(s) && s[0] == '-'
    ensures IsString(s[1..]) && Text(s) == ['-'] + Text(s[1..])
  {
  }

  /** A number that itoa writes into a buffer is what atoi reads there. */
  method RoundTrip(n: int32, str: array<char>) returns (r: int32)
    requires n > -0x8000_0000 && |Decimal(n as int)| < str.Length
    modifies str
    ensures r == n
  {
    Itoa(n, str);
    ParsedDecimal(n as int);
    r := Atoi(str[..]);
  }
}
