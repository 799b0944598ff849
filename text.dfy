/**
 * The pieces of Python's string handling the assembler relies on:
 * `str.strip()`, `str.split()` with no separator, `str.startswith` and
 * `int()` on a token.
 */
module Text {
  import opened Results

  /** Python's `str.isspace` for one character: the characters `strip()` and `split()` treat as whitespace. */
  predicate IsSpace(c: char) {
    var n := c as int;
    (9 <= n <= 13) || (28 <= n <= 32) || n == 0x85 || n == 0xA0 || n == 0x1680
    || (0x2000 <= n <= 0x200A) || n == 0x2028 || n == 0x2029 || n == 0x202F
    || n == 0x205F || n == 0x3000
  }

  predicate NoSpace(s: string) {
    forall k | 0 <= k < |s| :: !IsSpace(s[k])
  }

  /** Number of leading whitespace characters. */
  function LeadingSpace(s: string): (a: nat)
    ensures a <= |s|
    ensures forall k | 0 <= k < a :: IsSpace(s[k])
    ensures a < |s| ==> !IsSpace(s[a])
  {
    if s == [] || !IsSpace(s[0]) then 0 else 1 + LeadingSpace(s[1..])
  }

  /** Index just past the last non-whitespace character (0 when there is none). */
  function TrailingStart(s: string): (b: nat)
    ensures b <= |s|
    ensures forall k | b <= k < |s| :: IsSpace(s[k])
    ensures b > 0 ==> !IsSpace(s[b - 1])
  {
    if s == [] || !IsSpace(s[|s| - 1]) then |s| else TrailingStart(s[..|s| - 1])
  }

  /** Python's `s.strip()`: `s` without its leading and trailing whitespace. */
  function Strip(s: string): (r: string)
    ensures r == [] <==> forall k | 0 <= k < |s| :: IsSpace(s[k])
    ensures r != [] ==> !IsSpace(r[0]) && !IsSpace(r[|r| - 1])
    ensures exists a, b | 0 <= a <= b <= |s| ::
      (r == s[a..b]
      && (forall k | 0 <= k < a :: IsSpace(s[k]))
      && (forall k | b <= k < |s| :: IsSpace(s[k])))
  {
    var a := LeadingSpace(s);
    if a == |s| then
      assert s[a..a] == [];
      []
    else
      var b := TrailingStart(s);
      assert a < b;
      s[a..b]
  }

  /** Stripping is idempotent. */
  lemma StripStripped(s: string)
    ensures Strip(Strip(s)) == Strip(s)
  {
    var r := Strip(s);
    if r != [] {
      assert r[0..|r|] == r;
    }
  }

  /** Length of the whitespace-free token at the start of `s`. */
  function TokenLength(s: string): (n: nat)
    ensures n <= |s|
    ensures NoSpace(s[..n])
    ensures n < |s| ==> IsSpace(s[n])
  {
    if s == [] || IsSpace(s[0]) then 0
    else
      var n := TokenLength(s[1..]);
      assert s[..1 + n] == [s[0]] + s[1..][..n];
      1 + n
  }

  /** Python's `s.split()`: the maximal runs of non-whitespace characters, in order. */
  function Split(s: string): (parts: seq<string>)
    ensures forall i | 0 <= i < |parts| :: parts[i] != [] && NoSpace(parts[i])
    decreases |s|
  {
    if s == [] then []
    else if IsSpace(s[0]) then Split(s[1..])
    else
      var n := TokenLength(s);
      [s[..n]] + Split(s[n..])
  }

  /** The token at the start of `s` is the longest whitespace-free prefix: it ends at the first whitespace. */
  lemma TokenLengthUnique(s: string, k: nat)
    requires k <= |s| && NoSpace(s[..k]) && (k < |s| ==> IsSpace(s[k]))
    ensures TokenLength(s) == k
  {
    var n := TokenLength(s);
    assert forall j | 0 <= j < k :: s[..k][j] == s[j];
    assert forall j | 0 <= j < n :: s[..n][j] == s[j];
  }

  /** A whitespace character separates tokens: what lies on either side splits independently. */
  lemma {:induction false} SplitAtSpace(a: string, c: char, b: string)
    requires IsSpace(c)
    ensures Split(a + [c] + b) == Split(a) + Split(b)
    decreases |a|
  {
    var s := a + [c] + b;
    if a == [] {
      assert s[1..] == b;
    } else if IsSpace(a[0]) {
      assert s[1..] == a[1..] + [c] + b;
      SplitAtSpace(a[1..], c, b);
    } else {
      var m := TokenLength(a);
      assert s[..m] == a[..m];
      TokenLengthUnique(s, m);
      assert s[m..] == a[m..] + [c] + b;
      SplitAtSpace(a[m..], c, b);
    }
  }

  /** A non-empty whitespace-free string is one token. */
  lemma SplitWord(t: string)
    requires t != [] && NoSpace(t)
    ensures Split(t) == [t]
  {
    assert t[..|t|] == t;
    TokenLengthUnique(t, |t|);
    assert t[|t|..] == [];
  }

  /** The tokens joined with single spaces. */
  function JoinSpaced(parts: seq<string>): string {
    if parts == [] then []
    else if |parts| == 1 then parts[0]
    else parts[0] + " " + JoinSpaced(parts[1..])
  }

  /** Splitting tokens joined by single spaces gives the tokens back. */
  lemma {:induction false} SplitJoinSpaced(parts: seq<string>)
    requires forall i | 0 <= i < |parts| :: parts[i] != [] && NoSpace(parts[i])
    ensures Split(JoinSpaced(parts)) == parts
  {
    if parts != [] {
      var t := parts[0];
      var s := JoinSpaced(parts);
      var rest := if |parts| == 1 then [] else " " + JoinSpaced(parts[1..]);
      assert s == t + rest;
      assert s[0] == t[0];
      var n := TokenLength(s);
      assert forall k | 0 <= k < |t| :: s[k] == t[k];
      assert |t| < |s| ==> s[|t|] == ' ';
      assert n == |t|;
      assert s[..n] == t;
      assert s[n..] == rest;
      if |parts| > 1 {
        SplitJoinSpaced(parts[1..]);
        assert Split(rest) == Split(rest[1..]);
        assert rest[1..] == JoinSpaced(parts[1..]);
      }
    }
  }

  /** Python's `s.startswith(prefix)`. */
  predicate StartsWith(s: string, prefix: string) {
    |prefix| <= |s| && s[..|prefix|] == prefix
  }

  /** `s` starts with `prefix` exactly when `prefix` fits and agrees with `s` character by character. */
  lemma StartsWithChars(s: string, prefix: string)
    ensures StartsWith(s, prefix) <==> |prefix| <= |s| && forall k | 0 <= k < |prefix| :: s[k] == prefix[k]
  {
    if |prefix| <= |s| {
      assert forall k | 0 <= k < |prefix| :: s[..|prefix|][k] == s[k];
    }
  }

  /** A string does not start with a prefix whose first character it does not share. */
  lemma FirstDiffers(s: string, prefix: string)
    requires |s| >= 1 && |prefix| >= 1 && s[0] != prefix[0]
    ensures !StartsWith(s, prefix)
  {
    assert |prefix| > |s| || s[..|prefix|][0] != prefix[0];
  }

  predicate IsDigit(c: char) {
    '0' <= c <= '9'
  }

  /** One or more decimal digits. */
  predicate IsDigits(s: string) {
    |s| >= 1 && forall k | 0 <= k < |s| :: IsDigit(s[k])
  }

  /** The tokens `int()` accepts here: an optional sign followed by decimal digits. */
  predicate IsInteger(s: string) {
    IsDigits(s) || (|s| >= 2 && (s[0] == '-' || s[0] == '+') && IsDigits(s[1..]))
  }

  function DigitsValue(s: string): nat
    requires IsDigits(s)
  {
    var d := (s[|s| - 1] - '0') as nat;
    if |s| == 1 then d else 10 * DigitsValue(s[..|s| - 1]) + d
  }

  /**
   * Python's `int(token)` on a whitespace-free token: `None` where Python
   * raises ValueError.
   */
  function ParseInt(s: string): (r: Option<int>)
    ensures r.Some? <==> IsInteger(s)
    ensures r.Some? && IsDigits(s) ==> r.value == DigitsValue(s)
    ensures r.Some? && r.value < 0 ==> s[0] == '-'
    ensures r.Some? && s[0] == '-' ==> r.value == -(DigitsValue(s[1..]) as int)
    ensures r.Some? && s[0] == '+' ==> r.value == DigitsValue(s[1..])
  {
    if IsDigits(s) then Some(DigitsValue(s))
    else if |s| >= 2 && s[0] == '-' && IsDigits(s[1..]) then Some(-(DigitsValue(s[1..]) as int))
    else if |s| >= 2 && s[0] == '+' && IsDigits(s[1..]) then Some(DigitsValue(s[1..]))
    else None
  }

  function DigitChar(d: nat): char
    requires d < 10
  {
    '0' + d as char
  }

  /** Decimal digits of `n`, most significant first. */
  function ShowNat(n: nat): (s: string)
    ensures IsDigits(s)
  {
    if n < 10 then [DigitChar(n)] else ShowNat(n / 10) + [DigitChar(n % 10)]
  }

  /** The usual decimal spelling of `v`, with '-' for a negative number. */
  function ShowInt(v: int): string {
    if v < 0 then "-" + ShowNat(-v) else ShowNat(v)
  }

  lemma {:induction false} DigitsOfShowNat(n: nat)
    ensures DigitsValue(ShowNat(n)) == n
  {
    if n >= 10 {
      var s := ShowNat(n);
      DigitsOfShowNat(n / 10);
      assert s[..|s| - 1] == ShowNat(n / 10);
    }
  }

  /** Reading back the decimal spelling of any integer gives that integer. */
  lemma ParseShowInt(v: int)
    ensures ParseInt(ShowInt(v)) == Some(v)
  {
    if v < 0 {
      DigitsOfShowNat(-v);
      assert ShowInt(v)[1..] == ShowNat(-v);
    } else {
      DigitsOfShowNat(v);
    }
  }
}
