/** Shared vocabulary: optional values, outcomes, and the few string facts that several components need. */
module Common {

  datatype Option<+T> = None | Some(value: T)

  datatype Result<+T, +E> = Ok(value: T) | Err(error: E)

  // ----- sequences -----

  predicate Distinct<T(==)>(s: seq<T>) {
    forall i, j :: 0 <= i < j < |s| ==> s[i] != s[j]
  }

  lemma Regroup<T>(a: seq<T>, b: seq<T>, c: seq<T>)
    ensures (a + b) + c == a + (b + c)
  {
  }

  // ----- decimal text of naturals (Python's str(n) and f"{n}") -----

  function Digit(d: nat): char
    requires d < 10
  {
    "0123456789"[d]
  }

  predicate IsDigit(c: char) {
    '0' <= c <= '9'
  }

  function NatText(n: nat): (s: string)
    ensures |s| > 0
    ensures forall i :: 0 <= i < |s| ==> IsDigit(s[i])
  {
    if n < 10 then [Digit(n)] else NatText(n / 10) + [Digit(n % 10)]
  }

  /** int(s) for a string of ASCII digits. */
  function ParseNat(s: string): nat
    requires forall i :: 0 <= i < |s| ==> IsDigit(s[i])
  {
    if s == [] then 0 else assert IsDigit(s[|s| - 1]); 10 * ParseNat(s[..|s| - 1]) + (s[|s| - 1] as int - '0' as int)
  }

  lemma {:induction false} ParseNatText(n: nat)
    ensures ParseNat(NatText(n)) == n
  {
    var s := NatText(n);
    if n < 10 {
      assert s[..0] == [];
      assert Digit(n) as int - '0' as int == n;
    } else {
      ParseNatText(n / 10);
      assert s[..|s| - 1] == NatText(n / 10);
      assert Digit(n % 10) as int - '0' as int == n % 10;
    }
  }

  lemma {:induction false} NatTextInjective(m: nat, n: nat)
    requires NatText(m) == NatText(n)
    ensures m == n
  {
    ParseNatText(m);
    ParseNatText(n);
  }

  function Pow10(n: nat): (p: nat)
    ensures p > 0
  {
    if n == 0 then 1 else 10 * Pow10(n - 1)
  }

  // ----- names made of a prefix and a number -----

  function Label(prefix: string, n: nat): string {
    prefix + NatText(n)
  }

  lemma LabelInjective(prefix: string, m: nat, n: nat)
    requires Label(prefix, m) == Label(prefix, n)
    ensures m == n
  {
    assert Label(prefix, m)[|prefix|..] == NatText(m) && Label(prefix, n)[|prefix|..] == NatText(n);
    NatTextInjective(m, n);
  }

  /** The first number at or after n whose label is not taken. */
  function FirstFree(prefix: string, taken: set<string>, n: nat): nat
    decreases taken
  {
    if Label(prefix, n) in taken then FirstFree(prefix, taken - {Label(prefix, n)}, n + 1) else n
  }

  lemma {:induction false} FirstFreeExact(prefix: string, taken: set<string>, n: nat)
    ensures var k := FirstFree(prefix, taken, n);
            && n <= k <= n + |taken| && Label(prefix, k) !in taken
            && forall j :: n <= j < k ==> Label(prefix, j) in taken
    decreases taken
  {
    if Label(prefix, n) in taken {
      FirstFreeExact(prefix, taken - {Label(prefix, n)}, n + 1);
      var k := FirstFree(prefix, taken, n);
      if Label(prefix, k) == Label(prefix, n) {
        LabelInjective(prefix, k, n);
      }
    }
  }

  // ----- the order of strings -----

  /** Python's `a > b` on strings. */
  predicate Above(a: string, b: string) {
    a != [] && (b == [] || a[0] > b[0] || (a[0] == b[0] && Above(a[1..], b[1..])))
  }

  lemma {:induction false} AboveTotal(a: string, b: string)
    ensures a == b || Above(a, b) || Above(b, a)
  {
    if a != [] && b != [] && a[0] == b[0] {
      AboveTotal(a[1..], b[1..]);
      assert a == [a[0]] + a[1..] && b == [b[0]] + b[1..];
    }
  }

  lemma {:induction false} AboveTransitive(a: string, b: string, c: string)
    requires Above(a, b) && Above(b, c)
    ensures Above(a, c)
  {
    if c != [] && a[0] == b[0] == c[0] {
      AboveTransitive(a[1..], b[1..], c[1..]);
    }
  }

  lemma {:induction false} AboveStrict(a: string)
    ensures !Above(a, a)
  {
    if a != [] {
      AboveStrict(a[1..]);
    }
  }

  // ----- Python's str.strip() -----

  /** The characters Python's str.isspace() accepts. */
  predicate IsSpace(c: char) {
    || '\t' <= c <= '\r' || '\U{1c}' <= c <= ' ' || c == '\U{85}' || c == '\U{a0}' || c == '\U{1680}'
    || '\U{2000}' <= c <= '\U{200a}' || c == '\U{2028}' || c == '\U{2029}' || c == '\U{202f}'
    || c == '\U{205f}' || c == '\U{3000}'
  }

  function LStrip(s: string): string {
    if s != [] && IsSpace(s[0]) then LStrip(s[1..]) else s
  }

  function RStrip(s: string): string {
    if s != [] && IsSpace(s[|s| - 1]) then RStrip(s[..|s| - 1]) else s
  }

  function Strip(s: string): string {
    RStrip(LStrip(s))
  }

  /** A string that strip() leaves alone and does not empty. */
  predicate Trimmed(s: string) {
    s != [] && !IsSpace(s[0]) && !IsSpace(s[|s| - 1])
  }

  lemma StripTrimmed(s: string)
    requires Trimmed(s)
    ensures Strip(s) == s
  {
  }

  lemma {:induction false} LStripCuts(s: string) returns (k: nat)
    ensures k <= |s| && LStrip(s) == s[k..] && (forall i :: 0 <= i < k ==> IsSpace(s[i]))
    ensures k < |s| ==> !IsSpace(s[k])
  {
    k := 0;
    if s != [] && IsSpace(s[0]) {
      var rest := s[1..];
      var j := LStripCuts(rest);
      k := j + 1;
      assert forall i :: 0 <= i < |rest| ==> rest[i] == s[i + 1];
      assert rest[j..] == s[k..];
      assert forall i :: 0 < i < k ==> s[i] == rest[i - 1];
    }
  }

  lemma {:induction false} RStripCuts(s: string) returns (k: nat)
    ensures k <= |s| && RStrip(s) == s[..k] && (forall i :: k <= i < |s| ==> IsSpace(s[i]))
    ensures k > 0 ==> !IsSpace(s[k - 1])
  {
    k := |s|;
    if s != [] && IsSpace(s[|s| - 1]) {
      var rest := s[..|s| - 1];
      k := RStripCuts(rest);
      assert rest[..k] == s[..k];
    }
  }

  /** strip() takes the spaces off both ends, every one of them and nothing else. */
  lemma {:induction false} StripExactly(s: string) returns (from: nat, to: nat)
    ensures from <= to <= |s| && Strip(s) == s[from..to]
    ensures forall i :: 0 <= i < |s| && !(from <= i < to) ==> IsSpace(s[i])
    ensures from < to ==> !IsSpace(s[from]) && !IsSpace(s[to - 1])
  {
    from := LStripCuts(s);
    var rest := s[from..];
    var k := RStripCuts(rest);
    to := from + k;
    assert rest[..k] == s[from..to];
    forall i | to <= i < |s|
      ensures IsSpace(s[i])
    {
      assert s[i] == rest[i - from];
    }
  }

  /** The index of the first c in s, or |s|. */
  function IndexOf(s: string, c: char): (k: nat)
    ensures k <= |s|
    ensures forall i :: 0 <= i < k ==> s[i] != c
    ensures k < |s| ==> s[k] == c
  {
    if s == [] || s[0] == c then 0 else 1 + IndexOf(s[1..], c)
  }

  /** A `$` in a Python regular expression also matches just before a final newline. */
  function DollarTrim(s: string): (r: string)
    ensures r == s || s == r + "\n"
  {
    if s != [] && s[|s| - 1] == '\n' then s[..|s| - 1] else s
  }
}
