/** strncpy and strncmp (keyboard/string.c).  A pointer to characters is the sequence of the
    characters from there on; a C string ends at its first NUL. */
module CString {

  const NUL: char := '\0'

  /** The characters before the first NUL, at most `n`. */
  function Prefix(s: seq<char>, n: nat): (r: seq<char>)
    ensures |r| <= |s| && |r| <= n && r == s[..|r|] && NUL !in r
    ensures |r| < |s| && |r| < n ==> s[|r|] == NUL
  {
    if s == [] || n == 0 || s[0] == NUL then [] else [s[0]] + Prefix(s[1..], n - 1)
  }

  /** The C string that starts `s`. */
  function Text(s: seq<char>): seq<char> {
    Prefix(s, |s|)
  }

  /** `s` holds a C string. */
  predicate IsString(s: seq<char>) {
    |Text(s)| < |s|
  }

  /** `n` characters can be read from `s`, or it ends before. */
  predicate Readable(s: seq<char>, n: nat) {
    IsString(s) || n <= |s|
  }

  function Zeros(n: nat): (z: seq<char>)
    ensures |z| == n && forall i :: 0 <= i < n ==> z[i] == NUL
  {
    seq(n, _ => NUL)
  }

  /** A buffer of `n` characters that holds `text`, filled up with NUL. */
  function Padded(text: seq<char>, n: nat): (b: seq<char>)
    requires |text| <= n
    ensures |b| == n
  {
    text + Zeros(n - |text|)
  }

  /** The prefix is determined by where it ends. */
  lemma {:induction false} PrefixIs(s: seq<char>, n: nat, k: nat)
    requires k <= |s| && k <= n && NUL !in s[..k]
    requires k == |s| || k == n || s[k] == NUL
    ensures Prefix(s, n) == s[..k]
  {
    if k > 0 {
      assert s[0] == s[..k][0];
      assert s[1..][..k - 1] == s[..k][1..];
      PrefixIs(s[1..], n - 1, k - 1);
      assert s[..k] == [s[0]] + s[1..][..k - 1];
    }
  }

  /** For a buffer that holds a text shorter than itself, a comparison of the whole buffer with any
      C string tells whether the texts are the same. */
  lemma FoundByText(b: seq<char>, s: seq<char>)
    requires IsString(b) && IsString(s)
    ensures Prefix(b, |b|) == Prefix(s, |b|) <==> Text(s) == Text(b)
  {
    var n, t := |b|, Text(s);
    var k := if |t| <= n then |t| else n;
    assert s[..k] == t[..k];
    PrefixIs(s, n, k);
    if |t| < n {
      assert s[..k] == t;
    }
  }

  /** What strncpy stored is found again by strncmp, and nothing else is. */
  lemma StoredIsFound(text: seq<char>, n: nat, s: seq<char>)
    requires |text| < n && NUL !in text && IsString(s)
    ensures Text(Padded(text, n)) == text
    ensures Prefix(Padded(text, n), n) == Prefix(s, n) <==> Text(s) == text
  {
    var b := Padded(text, n);
    assert b[..|text|] == text && b[|text|] == NUL;
    PrefixIs(b, n, |text|);
    FoundByText(b, s);
  }

  /** The two strings first differ at `k`. */
  predicate DifferAt(s1: seq<char>, s2: seq<char>, k: nat) {
    k < |s1| && k < |s2| && s1[..k] == s2[..k] && NUL !in s1[..k] && s1[k] != s2[k]
  }

  /** strncmp: zero iff the first `n` characters of the two C strings agree. */
  method Strncmp(s1: seq<char>, s2: seq<char>, n0: nat) returns (r: int)
    requires Readable(s1, n0) && Readable(s2, n0)
    ensures r == 0 <==> Prefix(s1, n0) == Prefix(s2, n0)
    ensures r != 0 ==> exists k :: 0 <= k < n0 && DifferAt(s1, s2, k) && r == s1[k] as int - s2[k] as int
  {
    var i, n := 0, n0;
    while n > 0 && s1[i] != NUL && s2[i] != NUL
      invariant 0 <= n && i + n == n0 && i <= |s1| && i <= |s2|
      invariant s1[..i] == s2[..i] && NUL !in s1[..i]
      invariant n > 0 ==> i < |s1| && i < |s2|
      decreases n
    {
      n := n - 1;
      if s1[i] != s2[i] {
        PrefixAt(s1, n0, i);
        PrefixAt(s2, n0, i);
        return s1[i] as int - s2[i] as int;
      }
      i := i + 1;
      StillReadable(s1, n0, i);
      StillReadable(s2, n0, i);
    }
    if n == 0 {
      PrefixIs(s1, n0, i);
      PrefixIs(s2, n0, i);
      return 0;
    }
    r := s1[i] as int - s2[i] as int;
    PrefixEither(s1, n0, i);
    PrefixEither(s2, n0, i);
  }

  /** A prefix goes past a character that is not NUL. */
  lemma {:induction false} PrefixAt(s: seq<char>, n: nat, i: nat)
    requires i < |s| && i < n && NUL !in s[..i] && s[i] != NUL
    ensures i < |Prefix(s, n)| && Prefix(s, n)[i] == s[i] && Prefix(s, n)[..i] == s[..i]
  {
    if i > 0 {
      assert s[0] == s[..i][0] && s[1..][..i - 1] == s[..i][1..];
      PrefixAt(s[1..], n - 1, i - 1);
    }
  }

  lemma PrefixEither(s: seq<char>, n: nat, i: nat)
    requires i < |s| && i < n && NUL !in s[..i]
    ensures if s[i] == NUL then Prefix(s, n) == s[..i] else i < |Prefix(s, n)| && Prefix(s, n)[i] == s[i]
  {
    if s[i] == NUL {
      PrefixIs(s, n, i);
    } else {
      PrefixAt(s, n, i);
    }
  }

  lemma StillReadable(s: seq<char>, n: nat, i: nat)
    requires Readable(s, n) && i <= |s| && NUL !in s[..i]
    ensures i < n ==> i < |s|
  {
    assert i == |s| ==> s[..i] == s;
  }

  /** strncpy: the text, then NULs up to `n`.  The text must be shorter than `n`: otherwise the
      counter of the second loop would start from the largest size_t. */
  method Strncpy(dest: array<char>, src: seq<char>, n0: nat)
    requires IsString(src) && |Text(src)| < n0 <= dest.Length
    modifies dest
    ensures dest[..n0] == Padded(Text(src), n0)
    ensures dest[n0..] == old(dest[n0..])
  {
    var d, n := 0, n0;
    ghost var t := Text(src);
    while true
      invariant 0 <= n && d + n == n0 && d <= |t|
      invariant forall i :: 0 <= i < d ==> dest[i] == t[i]
      invariant forall i :: n0 <= i < dest.Length ==> dest[i] == old(dest[i])
      decreases n
    {
      n := n - 1;
      dest[d] := src[d];
      d := d + 1;
      if src[d - 1] == NUL {
        break;
      }
      TextGoesOn(src, d - 1);
    }
    TextEnds(src, d - 1);
    while n > 0
      invariant 0 <= n && d + n == n0 && |t| < d
      invariant forall i :: 0 <= i < |t| ==> dest[i] == t[i]
      invariant forall i :: |t| <= i < d ==> dest[i] == NUL
      invariant forall i :: n0 <= i < dest.Length ==> dest[i] == old(dest[i])
    {
      n := n - 1;
      dest[d] := NUL;
      d := d + 1;
    }
  }

  lemma TextGoesOn(s: seq<char>, d: nat)
    requires IsString(s) && d <= |Text(s)| && s[d] != NUL
    ensures d < |Text(s)|
  {
  }

  lemma TextEnds(s: seq<char>, d: nat)
    requires IsString(s) && d <= |Text(s)| && s[d] == NUL
    ensures d == |Text(s)|
  {
  }
}
