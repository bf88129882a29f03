/** The string primitives the passes use: prefix stripping, splitting at the first dot, comparison
    and decimal rendering. */
module Text {
  import opened Ir

  predicate StartsWith(s: string, prefix: string) {
    prefix <= s
  }

  /** `strip_prefix(prefix).unwrap_or(s)` */
  function StripPrefix(s: string, prefix: string): string {
    if StartsWith(s, prefix) then s[|prefix|..] else s
  }

  /** Index of the first `c`, or the length. */
  function IndexOf(s: string, c: char): (i: nat)
    ensures i <= |s|
    ensures i < |s| ==> s[i] == c
    ensures forall j :: 0 <= j < i ==> s[j] != c
  {
    if s == [] then 0
    else if s[0] == c then 0
    else
      var i := IndexOf(s[1..], c);
      assert forall j :: 0 < j < i + 1 ==> s[j] == s[1..][j - 1];
      i + 1
  }

  /** `split_head`: the text before the first dot. */
  function Head(s: string): string {
    s[..IndexOf(s, '.')]
  }

  /** `split_head`: the text after the first dot, empty when there is none. */
  function Tail(s: string): string {
    var i := IndexOf(s, '.');
    if i < |s| then s[i + 1..] else ""
  }

  lemma IndexOfFirst(s: string, c: char, i: nat)
    requires i < |s| && s[i] == c && forall j :: 0 <= j < i ==> s[j] != c
    ensures IndexOf(s, c) == i
  {
  }

  /** Splitting at the dot that was put in gives the two parts back. */
  lemma SplitDotted(a: string, b: string)
    requires '.' !in a
    ensures Head(a + "." + b) == a && Tail(a + "." + b) == b
  {
    IndexOfFirst(a + "." + b, '.', |a|);
  }

  lemma HeadUndotted(a: string)
    requires '.' !in a
    ensures Head(a) == a && Tail(a) == ""
  {
    assert IndexOf(a, '.') == |a|;
  }

  /** The head is the one dotless text that `s` is, or begins with before a dot. */
  lemma HeadIs(s: string, x: string)
    ensures Head(s) == x <==> '.' !in x && (s == x || x + "." <= s)
  {
    var i := IndexOf(s, '.');
    assert forall j :: 0 <= j < |s[..i]| ==> s[..i][j] != '.';
    if i < |s| {
      assert s == s[..i] + "." + s[i + 1..];
    } else {
      assert s[..i] == s;
    }
    if '.' !in x && s == x { HeadUndotted(x); }
    if '.' !in x && x + "." <= s {
      var tail := s[|x| + 1..];
      assert s == x + "." + tail;
      SplitDotted(x, tail);
    }
  }

  function CompareStrings(a: string, b: string): Ordering {
    if a == [] then (if b == [] then Equal else Less)
    else if b == [] then Greater
    else if a[0] < b[0] then Less
    else if b[0] < a[0] then Greater
    else CompareStrings(a[1..], b[1..])
  }

  function Digit(d: nat): char
    requires d < 10
  {
    "0123456789"[d]
  }

  function DecNat(n: nat): (r: string)
    ensures |r| > 0
    ensures forall i :: 0 <= i < |r| ==> '0' <= r[i] <= '9'
  {
    if n < 10 then [Digit(n)] else DecNat(n / 10) + [Digit(n % 10)]
  }

  /** Decimal rendering is injective. */
  lemma {:induction false} DecNatInjective(m: nat, n: nat)
    requires DecNat(m) == DecNat(n)
    ensures m == n
    decreases m
  {
    var a, b := DecNat(m), DecNat(n);
    assert a[|a| - 1] == Digit(m % 10) && b[|b| - 1] == Digit(n % 10);
    assert m % 10 == n % 10 by { DigitInjective(m % 10, n % 10); }
    if m >= 10 && n >= 10 {
      assert a[..|a| - 1] == DecNat(m / 10) && b[..|b| - 1] == DecNat(n / 10);
      DecNatInjective(m / 10, n / 10);
    }
  }

  lemma DigitInjective(a: nat, b: nat)
    requires a < 10 && b < 10 && Digit(a) == Digit(b)
    ensures a == b
  {
  }

  function Dec(n: int): string {
    if n < 0 then "-" + DecNat(-n) else DecNat(n)
  }

  function Join(parts: seq<string>, sep: string): string {
    if parts == [] then ""
    else if |parts| == 1 then parts[0]
    else parts[0] + sep + Join(parts[1..], sep)
  }

  lemma {:induction false} JoinSnoc(parts: seq<string>, last: string, sep: string)
    ensures Join(parts + [last], sep) == Join(parts, sep) + (if parts == [] then "" else sep) + last
    decreases |parts|
  {
    if parts == [] {
      assert parts + [last] == [last];
    } else if |parts| == 1 {
      assert (parts + [last])[1..] == [last];
    } else {
      assert (parts + [last])[1..] == parts[1..] + [last];
      JoinSnoc(parts[1..], last, sep);
    }
  }

  function Concat(parts: seq<string>): string {
    if parts == [] then "" else parts[0] + Concat(parts[1..])
  }
}
