/** The few Python string built-ins the core relies on: the substring test
    `w in s`, `str(n)` of an integer, and `sep.join(parts)`. */
module Strings {

  /** Python's `w in s` on strings: `w` occurs in `s` as a contiguous piece. */
  predicate Contains(s: string, w: string)
    decreases |s|
  {
    w <= s || (|s| > 0 && Contains(s[1..], w))
  }

  /** A piece found at a known offset is contained. */
  lemma {:induction false} ContainsAt(s: string, w: string, i: nat)
    requires i + |w| <= |s| && s[i..i + |w|] == w
    ensures Contains(s, w)
    decreases i
  {
    if i == 0 {
      assert w <= s;
    } else {
      assert s[1..][i - 1..i - 1 + |w|] == s[i..i + |w|];
      ContainsAt(s[1..], w, i - 1);
    }
  }

  /** What a string contains, any longer string around it contains too. */
  lemma ContainsInside(a: string, b: string, c: string, w: string)
    requires Contains(b, w)
    ensures Contains(a + b + c, w)
  {
    var i := ContainsOffset(b, w);
    assert (a + b + c)[|a| + i..|a| + i + |w|] == b[i..i + |w|];
    ContainsAt(a + b + c, w, |a| + i);
  }

  /** The offset at which a contained piece occurs. */
  lemma {:induction false} ContainsOffset(s: string, w: string) returns (i: nat)
    requires Contains(s, w)
    ensures i + |w| <= |s| && s[i..i + |w|] == w
    decreases |s|
  {
    if w <= s {
      i := 0;
    } else {
      var k := ContainsOffset(s[1..], w);
      assert s[1..][k..k + |w|] == s[k + 1..k + 1 + |w|];
      i := k + 1;
    }
  }

  /** A string that does not start any occurrence of `w` at its first
      characters: if no character of `p` is `w[0]`, then `w` occurs in
      `p + s` only if it occurs in `s`. */
  lemma {:induction false} NotContainsPrefix(p: string, s: string, w: string)
    requires |w| > 0 && forall k :: 0 <= k < |p| ==> p[k] != w[0]
    requires !Contains(s, w)
    ensures !Contains(p + s, w)
    decreases |p|
  {
    if |p| > 0 {
      assert (p + s)[0] == p[0] != w[0];
      assert !(w <= p + s);
      assert (p + s)[1..] == p[1..] + s;
      NotContainsPrefix(p[1..], s, w);
    } else {
      assert p + s == s;
    }
  }

  predicate IsDigit(c: char) {
    '0' <= c <= '9'
  }

  predicate AllDigits(s: string) {
    forall k :: 0 <= k < |s| ==> IsDigit(s[k])
  }

  function Digit(d: nat): (c: char)
    requires d < 10
  {
    ('0' as int + d) as char
  }

  /** Python's `str(n)` for a non-negative integer: its decimal digits. */
  function NatToString(n: nat): (r: string)
    ensures |r| > 0 && AllDigits(r)
    ensures n < 10 <==> |r| == 1
  {
    if n < 10 then [Digit(n)] else NatToString(n / 10) + [Digit(n % 10)]
  }

  /** Python's `str(n)` for any integer. */
  function IntToString(n: int): (r: string)
    ensures |r| > 0
    ensures n < 0 <==> r[0] == '-'
  {
    if n < 0 then "-" + NatToString(-n) else NatToString(n)
  }

  /** Reading a string of decimal digits back as a number (`int(s)`). */
  function ParseNat(s: string): (n: nat)
    requires AllDigits(s)
  {
    if s == [] then 0
    else 10 * ParseNat(s[..|s| - 1]) + (s[|s| - 1] as int - '0' as int)
  }

  /** `str` and `int` are inverse on the naturals. */
  lemma {:induction false} ParseNatToString(n: nat)
    ensures ParseNat(NatToString(n)) == n
  {
    var s := NatToString(n);
    if n >= 10 {
      assert s[..|s| - 1] == NatToString(n / 10);
      ParseNatToString(n / 10);
    }
  }

  /** Different numbers have different decimal representations. */
  lemma NatToStringInjective(a: nat, b: nat)
    requires NatToString(a) == NatToString(b)
    ensures a == b
  {
    ParseNatToString(a);
    ParseNatToString(b);
  }

  /** Python's `sep.join(parts)`. */
  function Join(parts: seq<string>, sep: string): string
  {
    if |parts| == 0 then ""
    else if |parts| == 1 then parts[0]
    else parts[0] + sep + Join(parts[1..], sep)
  }

  /** A slice of a suffix is a slice of the whole, shifted. */
  lemma SliceOfSuffix(text: string, d: nat, lo: nat, hi: nat)
    requires d <= |text| && lo <= hi <= |text| - d
    ensures text[d..][lo..hi] == text[d + lo..d + hi]
  {
  }

  /** Where part `k` starts in `Join(parts, sep)`: after every earlier part,
      each followed by one separator. */
  function Offset(parts: seq<string>, sep: string, k: nat): nat
    requires k <= |parts|
  {
    if k == 0 then 0 else |parts[0]| + |sep| + Offset(parts[1..], sep, k - 1)
  }

  /** A join of two or more parts: the first part, one separator, and the
      join of the rest. */
  lemma JoinCons(parts: seq<string>, sep: string)
    requires |parts| >= 2
    ensures Join(parts, sep) == parts[0] + sep + Join(parts[1..], sep)
    ensures |Join(parts[1..], sep)| >= |parts[1]|
  {
    if |parts| > 2 {
      assert Join(parts[1..], sep) == parts[1] + sep + Join(parts[2..], sep);
    }
  }

  /** Part `k` of a join sits at `Offset(parts, sep, k)`. */
  lemma {:induction false} JoinPart(parts: seq<string>, sep: string, k: nat)
    requires k < |parts|
    ensures Offset(parts, sep, k) + |parts[k]| <= |Join(parts, sep)|
    ensures Join(parts, sep)[Offset(parts, sep, k)..Offset(parts, sep, k) + |parts[k]|] == parts[k]
    ensures k + 1 == |parts| ==> |Join(parts, sep)| == Offset(parts, sep, k) + |parts[k]|
  {
    if |parts| >= 2 {
      var rest := parts[1..];
      var j := Join(parts, sep);
      JoinCons(parts, sep);
      if k > 0 {
        JoinPart(rest, sep, k - 1);
        var d := |parts[0]| + |sep|;
        var o := Offset(rest, sep, k - 1);
        assert j[d..] == Join(rest, sep);
        assert j[d + o..d + o + |parts[k]|] == Join(rest, sep)[o..o + |parts[k]|];
      } else {
        assert j[..|parts[0]|] == parts[0];
      }
    }
  }

  /** Between consecutive parts of a join stands exactly one separator. */
  lemma {:induction false} JoinSeparator(parts: seq<string>, sep: string, k: nat)
    requires k + 1 < |parts|
    ensures Offset(parts, sep, k + 1) == Offset(parts, sep, k) + |parts[k]| + |sep|
    ensures Offset(parts, sep, k + 1) <= |Join(parts, sep)|
    ensures Join(parts, sep)[Offset(parts, sep, k) + |parts[k]|..Offset(parts, sep, k + 1)] == sep
  {
    var rest := parts[1..];
    var j := Join(parts, sep);
    JoinCons(parts, sep);
    var d := |parts[0]| + |sep|;
    if k == 0 {
      assert j[|parts[0]|..d] == sep;
    } else {
      JoinSeparator(rest, sep, k - 1);
      assert j[d..] == Join(rest, sep);
      var o := Offset(rest, sep, k - 1);
      var o' := Offset(rest, sep, k);
      assert rest[k - 1] == parts[k];
      SliceOfSuffix(j, d, o + |parts[k]|, o');
    }
  }

  /** Every part occurs in the join. */
  lemma JoinContains(parts: seq<string>, sep: string, k: nat)
    requires k < |parts|
    ensures Contains(Join(parts, sep), parts[k])
  {
    JoinPart(parts, sep, k);
    ContainsAt(Join(parts, sep), parts[k], Offset(parts, sep, k));
  }
}
