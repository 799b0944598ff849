/**
 * Bit strings: strings over '0' and '1', most significant bit first, as the
 * assembler writes them.  `FormatBin` is Python's `format(v, '0<w>b')`;
 * `Unsigned` and `Signed` read a bit string back as an unsigned number and
 * as a two's-complement number of its own width.
 */
module Binary {

  function Pow2(w: nat): (r: nat)
    ensures r >= 1
  {
    if w == 0 then 1 else 2 * Pow2(w - 1)
  }

  /** The widths the LC-3 fields use. */
  lemma Pow2Widths()
    ensures Pow2(3) == 8 && Pow2(4) == 16 && Pow2(5) == 32 && Pow2(8) == 256 && Pow2(9) == 512
  {
    assert Pow2(2) == 4;
    assert Pow2(5) == 32;
    assert Pow2(7) == 128;
  }

  predicate IsBinary(s: string) {
    forall k | 0 <= k < |s| :: s[k] == '0' || s[k] == '1'
  }

  lemma BinaryConcat(a: string, b: string)
    requires IsBinary(a) && IsBinary(b)
    ensures IsBinary(a + b)
  {
  }

  function BitChar(b: nat): char
    requires b < 2
  {
    if b == 0 then '0' else '1'
  }

  function BitValue(c: char): nat {
    if c == '1' then 1 else 0
  }

  /** The unsigned value of `s`, read most significant bit first. */
  function Unsigned(s: string): nat {
    if s == [] then 0 else 2 * Unsigned(s[..|s| - 1]) + BitValue(s[|s| - 1])
  }

  /** The value of `s` read as a two's-complement number |s| bits wide. */
  function Signed(s: string): int {
    if s != [] && s[0] == '1' then Unsigned(s) - Pow2(|s|) else Unsigned(s)
  }

  /**
   * Python's `format(v, '0<w>b')`: the binary digits of `v` without leading
   * zeros ("0" for zero), left-padded with '0' to at least `w` characters.
   * A value that needs more than `w` bits is not truncated: the result is
   * then longer than `w`.
   */
  function FormatBin(v: nat, w: nat): (r: string)
    ensures IsBinary(r)
    ensures Unsigned(r) == v
    ensures |r| >= 1 && |r| >= w
    ensures w >= 1 ==> (|r| == w <==> v < Pow2(w))
    ensures |r| > 1 && |r| > w ==> r[0] == '1'
    decreases v, w
  {
    if v < 2 && w <= 1 then
      [BitChar(v)]
    else
      var high := FormatBin(v / 2, if w == 0 then 0 else w - 1);
      assert (high + [BitChar(v % 2)])[..|high|] == high;
      assert (high + [BitChar(v % 2)])[0] == high[0];
      high + [BitChar(v % 2)]
  }

  lemma {:induction false} UnsignedBound(s: string)
    ensures Unsigned(s) < Pow2(|s|)
  {
    if s != [] {
      UnsignedBound(s[..|s| - 1]);
    }
  }

  /** The leading bit of a bit string is set exactly when its value reaches half its range. */
  lemma {:induction false} LeadingBit(s: string)
    requires |s| >= 1
    ensures s[0] == '1' <==> Unsigned(s) >= Pow2(|s| - 1)
  {
    if |s| > 1 {
      var t := s[..|s| - 1];
      LeadingBit(t);
      assert t[0] == s[0];
      if s[0] != '1' {
        assert Unsigned(t) + 1 <= Pow2(|t| - 1);
      }
    }
  }

  /**
   * The unsigned number that stands for `v` in `w`-bit two's complement:
   * `v` itself when it is not negative, `v + 2^w` when it is.  For `v` in
   * range this is `v mod 2^w`, which is what Python's `v & (2^w - 1)` gives.
   */
  function Wrap(v: int, w: nat): int {
    if v < 0 then v + Pow2(w) else v
  }

  /**
   * Two's-complement round trip: formatting the wrapped value of an in-range
   * `v` to width `w` gives exactly `w` bits that read back as `v`.
   */
  lemma TwosComplementRoundTrip(v: int, w: nat)
    requires w >= 1
    requires -(Pow2(w - 1) as int) <= v < Pow2(w - 1)
    ensures 0 <= Wrap(v, w) < Pow2(w)
    ensures var r := FormatBin(Wrap(v, w), w);
      |r| == w && Unsigned(r) == Wrap(v, w) && Signed(r) == v
  {
    assert Pow2(w) == 2 * Pow2(w - 1);
    var r := FormatBin(Wrap(v, w), w);
    LeadingBit(r);
    assert r[0] == '1' <==> v < 0;
  }

  /** Formatting the value of a bit string to its own width gives the string back. */
  lemma {:induction false} FormatUnsigned(s: string)
    requires IsBinary(s) && |s| >= 1
    ensures FormatBin(Unsigned(s), |s|) == s
  {
    var t, c := s[..|s| - 1], s[|s| - 1];
    var v := Unsigned(s);
    assert s == t + [c];
    assert v == 2 * Unsigned(t) + BitValue(c);
    if |s| > 1 {
      assert IsBinary(t);
      FormatUnsigned(t);
      assert v / 2 == Unsigned(t) && BitChar(v % 2) == c;
      assert FormatBin(v, |s|) == FormatBin(v / 2, |t|) + [BitChar(v % 2)];
    }
  }
}
