/** String helpers shared by the renderers: decimal printing, joining,
    searching and the first-occurrence removal used on header buffers. */
module Text {

  import opened Wrappers

  /** The decimal digit character for d. */
  function DigitChar(d: nat): char
    requires d < 10
  {
    "0123456789"[d]
  }

  predicate IsDigit(c: char) {
    '0' <= c <= '9'
  }

  predicate AllDigits(s: string) {
    forall i :: 0 <= i < |s| ==> IsDigit(s[i])
  }

  /** Decimal text of a natural number, as Java's Integer.toString prints it. */
  function NatToString(n: nat): (r: string)
    ensures |r| >= 1
    ensures AllDigits(r)
    ensures n < 10 <==> |r| == 1
  {
    if n < 10 then [DigitChar(n)] else NatToString(n / 10) + [DigitChar(n % 10)]
  }

  /** Reads back a string of decimal digits. */
  function ParseNat(s: string): nat
    requires AllDigits(s)
  {
    if s == [] then 0 else ParseNat(s[..|s| - 1]) * 10 + (s[|s| - 1] - '0') as nat
  }

  /** Printing then reading a number gives the number back, so two
      different numbers never print the same. */
  lemma {:induction false} ParseNatToString(n: nat)
    ensures ParseNat(NatToString(n)) == n
  {
    var s := NatToString(n);
    if n < 10 {
      assert s[..|s| - 1] == [];
    } else {
      var p := NatToString(n / 10);
      assert s[..|s| - 1] == p;
      ParseNatToString(n / 10);
    }
  }

  lemma NatToStringInjective(m: nat, n: nat)
    requires NatToString(m) == NatToString(n)
    ensures m == n
  {
    ParseNatToString(m);
    ParseNatToString(n);
  }

  /** Java's decimal text of an int: a minus sign before the magnitude. */
  function IntToString(i: int): (r: string)
    ensures |r| >= 1
    ensures (r[0] == '-') <==> i < 0
  {
    if i < 0 then "-" + NatToString(-i) else NatToString(i)
  }

  /** Elements separated by sep, with no leading or trailing separator. */
  function Join(xs: seq<string>, sep: string): string {
    if xs == [] then ""
    else if |xs| == 1 then xs[0]
    else Join(xs[..|xs| - 1], sep) + sep + xs[|xs| - 1]
  }

  /** Joining one more element adds exactly one separator before it. */
  lemma JoinSnoc(xs: seq<string>, x: string, sep: string)
    requires xs != []
    ensures Join(xs + [x], sep) == Join(xs, sep) + sep + x
  {
    assert (xs + [x])[..|xs + [x]| - 1] == xs;
  }

  /** Joining with a new first element puts one separator after it. */
  lemma {:induction false} JoinCons(x: string, xs: seq<string>, sep: string)
    requires xs != []
    ensures Join([x] + xs, sep) == x + sep + Join(xs, sep)
    decreases |xs|
  {
    if |xs| == 1 {
      assert ([x] + xs)[..1] == [x];
    } else {
      var front := xs[..|xs| - 1];
      JoinCons(x, front, sep);
      assert [x] + xs == ([x] + front) + [xs[|xs| - 1]];
      JoinSnoc([x] + front, xs[|xs| - 1], sep);
      assert xs == front + [xs[|xs| - 1]];
      JoinSnoc(front, xs[|xs| - 1], sep);
    }
  }

  /** Total length: the elements plus one separator between each pair. */
  lemma {:induction false} JoinLength(xs: seq<string>, sep: string)
    requires xs != []
    ensures |Join(xs, sep)| == SumLengths(xs) + (|xs| - 1) * |sep|
  {
    if |xs| > 1 {
      var front := xs[..|xs| - 1];
      var last := xs[|xs| - 1];
      JoinLength(front, sep);
      SumLengthsSnoc(front, last);
      assert front + [last] == xs;
      assert |Join(xs, sep)| == |Join(front, sep)| + |sep| + |last|;
      MulSucc(|front| - 1, |sep|);
    }
  }

  lemma MulSucc(a: int, b: int)
    ensures a * b + b == (a + 1) * b
  {
  }

  function SumLengths(xs: seq<string>): nat {
    if xs == [] then 0 else |xs[0]| + SumLengths(xs[1..])
  }

  lemma {:induction false} SumLengthsSnoc(xs: seq<string>, x: string)
    ensures SumLengths(xs + [x]) == SumLengths(xs) + |x|
  {
    if xs != [] {
      assert (xs + [x])[1..] == xs[1..] + [x];
      SumLengthsSnoc(xs[1..], x);
    }
  }

  /** Concatenation of all elements, no separator. */
  function Concat(xs: seq<string>): string {
    if xs == [] then "" else xs[0] + Concat(xs[1..])
  }

  predicate OccursAt(s: string, w: string, k: int) {
    0 <= k && k + |w| <= |s| && s[k..k + |w|] == w
  }

  /** An occurrence inside m is still one inside p + m + q, shifted by |p|. */
  lemma OccursWithin(p: string, m: string, q: string, w: string, k: int)
    requires OccursAt(m, w, k)
    ensures OccursAt(p + m + q, w, |p| + k)
  {
    assert (p + m + q)[|p| + k..|p| + k + |w|] == m[k..k + |w|];
  }

  /** First index at which w occurs in s, or -1 (Java's String.indexOf). */
  function IndexOf(s: string, w: string): (r: int)
    ensures r == -1 || OccursAt(s, w, r)
    ensures r == -1 <==> forall k :: 0 <= k <= |s| - |w| ==> !OccursAt(s, w, k)
    ensures r >= 0 ==> forall k :: 0 <= k < r ==> !OccursAt(s, w, k)
  {
    IndexOfFrom(s, w, 0)
  }

  function IndexOfFrom(s: string, w: string, from: nat): (r: int)
    requires from <= |s| + 1
    ensures r == -1 || (from <= r && OccursAt(s, w, r))
    ensures r == -1 <==> forall k :: from <= k <= |s| - |w| ==> !OccursAt(s, w, k)
    ensures r >= 0 ==> forall k :: from <= k < r ==> !OccursAt(s, w, k)
    decreases |s| + 1 - from
  {
    if from + |w| > |s| then -1
    else if s[from..from + |w|] == w then from
    else IndexOfFrom(s, w, from + 1)
  }

  /** Last index of c in s, or -1 (Java's String.lastIndexOf(char)). */
  function LastIndexOf(s: string, c: char): (r: int)
    ensures -1 <= r < |s|
    ensures r >= 0 ==> s[r] == c
    ensures forall k :: r < k < |s| ==> s[k] != c
  {
    if s == [] then -1
    else if s[|s| - 1] == c then |s| - 1
    else LastIndexOf(s[..|s| - 1], c)
  }

  /** Last index at which w occurs in s, or -1 (StringBuilder.lastIndexOf). */
  function LastIndexOfWord(s: string, w: string): (r: int)
    ensures r == -1 || OccursAt(s, w, r)
    ensures r == -1 <==> forall k :: 0 <= k <= |s| - |w| ==> !OccursAt(s, w, k)
    ensures forall k :: r < k <= |s| - |w| ==> !OccursAt(s, w, k)
  {
    if |w| > |s| then -1
    else if s[|s| - |w|..] == w then |s| - |w|
    else
      var r := LastIndexOfWord(s[..|s| - 1], w);
      assert forall k :: 0 <= k <= |s| - 1 - |w| ==> (OccursAt(s[..|s| - 1], w, k) <==> OccursAt(s, w, k)) by {
        forall k | 0 <= k <= |s| - 1 - |w|
          ensures OccursAt(s[..|s| - 1], w, k) <==> OccursAt(s, w, k)
        {
          assert s[..|s| - 1][k..k + |w|] == s[k..k + |w|];
        }
      }
      r
  }

  /** Deletes the first occurrence of w from s. Java's
      StringBuffer.replace(indexOf(w), indexOf(w) + |w|, "") throws when w is
      absent (start -1); that failure is None here. */
  function RemoveFirst(s: string, w: string): (r: Option<string>)
    ensures r.None? <==> IndexOf(s, w) == -1
    ensures r.Some? ==> |r.value| == |s| - |w|
    ensures r.Some? ==> var k := IndexOf(s, w); r.value == s[..k] + s[k + |w|..]
  {
    var k := IndexOf(s, w);
    if k == -1 then None else Some(s[..k] + s[k + |w|..])
  }

  /** Every '/' replaced by '.': the internal-to-dotted class name conversion. */
  function Dotted(s: string): (r: string)
    ensures |r| == |s|
  {
    if s == [] then "" else [if s[0] == '/' then '.' else s[0]] + Dotted(s[1..])
  }

  /** Each character of the dotted name is the original one, with '/'
      turned into '.'. */
  lemma {:induction false} DottedAt(s: string, i: nat)
    requires i < |s|
    ensures Dotted(s)[i] == (if s[i] == '/' then '.' else s[i])
  {
    if i > 0 {
      DottedAt(s[1..], i - 1);
    }
  }

  predicate IsPrefix(p: string, s: string) {
    |p| <= |s| && s[..|p|] == p
  }

  /** A prefix of a prefix is a prefix. */
  lemma PrefixTrans(a: string, b: string, c: string)
    requires IsPrefix(a, b) && IsPrefix(b, c)
    ensures IsPrefix(a, c)
  {
    assert c[..|a|] == c[..|b|][..|a|];
  }

  predicate IsSuffix(p: string, s: string) {
    |p| <= |s| && s[|s| - |p|..] == p
  }
}
