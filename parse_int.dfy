/**
 * The unsigned integer parser the watchdog relies on twice: `u64::from_str_radix`
 * with radix 16 for block numbers and `str::parse::<u64>` (radix 10) for the lag
 * threshold. The parser accepts one optional leading '+', then one or more digits
 * of the radix in either letter case; it reads them left to right and stops at the
 * first digit that is invalid or that makes the value exceed 2^64 - 1.
 */
module ParseInt {
  import opened Results

  const U64_MAX: nat := 0xFFFF_FFFF_FFFF_FFFF

  /** The values of Rust's `u64`. */
  type U64 = x: nat | x <= U64_MAX

  /** A radix accepted by `char::to_digit`. */
  type Radix = r: nat | 2 <= r <= 36 witness 10

  /** The kinds of `ParseIntError` an unsigned parse can report. */
  datatype IntErrorKind = Empty | InvalidDigit | PosOverflow

  /** The value of an ASCII letter or digit in base 36, in either letter case. */
  function Base36Value(c: char): (v: Option<nat>)
    ensures v.Some? ==> v.value < 36
  {
    if '0' <= c <= '9' then Some(c as nat - '0' as nat)
    else if 'a' <= c <= 'z' then Some(c as nat - 'a' as nat + 10)
    else if 'A' <= c <= 'Z' then Some(c as nat - 'A' as nat + 10)
    else None
  }

  /** `c.to_digit(radix)`: the value of `c` when it is a digit of `radix`. */
  function DigitValue(c: char, radix: Radix): (d: Option<nat>)
    ensures d.Some? ==> d.value < radix
  {
    match Base36Value(c)
    case Some(v) => if v < radix then Some(v) else None
    case None => None
  }

  /** Every character of `s` is a digit of `radix`. */
  predicate AllDigits(s: string, radix: Radix) {
    forall i :: 0 <= i < |s| ==> DigitValue(s[i], radix).Some?
  }

  /** The positional value of a digit string, most significant digit first, unbounded. */
  function ValueOf(s: string, radix: Radix): nat
    requires AllDigits(s, radix)
  {
    if s == [] then 0
    else ValueOf(s[..|s| - 1], radix) * radix + DigitValue(s[|s| - 1], radix).value
  }

  /**
   * The digit loop of `from_str_radix`: starting from `acc`, each character is
   * first checked to be a digit, then `acc * radix + digit` is checked not to
   * exceed `U64_MAX`; the first failure ends the parse.
   */
  function Accumulate(acc: U64, digits: string, radix: Radix): (r: Result<U64, IntErrorKind>)
    ensures r != Err(Empty)
    ensures r.Ok? ==> acc <= r.value
    decreases |digits|
  {
    if digits == [] then Ok(acc)
    else
      match DigitValue(digits[0], radix)
      case None => Err(InvalidDigit)
      case Some(d) =>
        var next := acc * radix + d;
        if next > U64_MAX then Err(PosOverflow)
        else
          ScaleGrows(acc, radix, d);
          Accumulate(next, digits[1..], radix)
  }

  /** The characters after the optional leading '+': the part that must be digits. */
  function Unsigned(src: string): (body: string)
    ensures src != [] && src[0] == '+' ==> src == ['+'] + body
    ensures (src == [] || src[0] != '+') ==> body == src
  {
    if src != [] && src[0] == '+' then src[1..] else src
  }

  /** `u64::from_str_radix(src, radix)`. A lone sign is an invalid digit, an empty string is `Empty`. */
  function FromStrRadix(src: string, radix: Radix): Result<U64, IntErrorKind> {
    if src == [] then Err(Empty)
    else if src == ['+'] || src == ['-'] then Err(InvalidDigit)
    else Accumulate(0, Unsigned(src), radix)
  }

  /** What the parser accepts, apart from the range check: an optional '+', then at least one digit. */
  predicate WellFormed(src: string, radix: Radix) {
    Unsigned(src) != [] && AllDigits(Unsigned(src), radix)
  }

  /** The lower-case digit character for a value below 36, as `format!("{:x}")` writes it. */
  function DigitChar(d: nat): (c: char)
    requires d < 36
    ensures Base36Value(c) == Some(d)
    ensures !('A' <= c <= 'Z') && c != '+'
  {
    if d < 10 then ('0' as nat + d) as char else ('a' as nat + d - 10) as char
  }

  /** The shortest lower-case digit string of `n` in `radix` ("0" for zero). */
  function Encode(n: nat, radix: Radix): (s: string)
    ensures s != [] && AllDigits(s, radix)
    ensures forall i :: 0 <= i < |s| ==> !('A' <= s[i] <= 'Z')
    decreases n
  {
    if n < radix then [DigitChar(n)]
    else
      var q, d := n / radix, n % radix;
      assert q < n && d < radix by { DivBounds(n, radix); }
      var s := Encode(q, radix) + [DigitChar(d)];
      assert forall i :: 0 <= i < |s| - 1 ==> s[i] == Encode(q, radix)[i];
      s
  }

  /** Euclidean division by the radix shrinks `n` and leaves a digit as remainder. */
  lemma DivBounds(n: nat, radix: Radix)
    requires radix <= n
    ensures n / radix < n && n % radix < radix
    ensures n == (n / radix) * radix + n % radix
  {
  }

  /** Scaling by a radix and adding a digit never makes a value smaller. */
  lemma ScaleGrows(x: nat, radix: Radix, d: nat)
    ensures x <= x * radix + d
  {
    assert x * radix == x + x * (radix - 1);
  }

  /** `ValueOf` never decreases when digits are appended. */
  lemma {:induction false} ValueOfMonotone(p: string, t: string, radix: Radix)
    requires AllDigits(p, radix) && AllDigits(t, radix)
    ensures AllDigits(p + t, radix)
    ensures ValueOf(p, radix) <= ValueOf(p + t, radix)
    decreases |t|
  {
    assert AllDigits(p + t, radix) by {
      forall i | 0 <= i < |p + t| ensures DigitValue((p + t)[i], radix).Some? {
        if i >= |p| { assert (p + t)[i] == t[i - |p|]; }
      }
    }
    if t != [] {
      var t' := t[..|t| - 1];
      ValueOfMonotone(p, t', radix);
      assert (p + t)[..|p + t| - 1] == p + t';
      var x := ValueOf(p + t', radix);
      var d := DigitValue(t[|t| - 1], radix).value;
      assert (p + t)[|p + t| - 1] == t[|t| - 1];
      assert ValueOf(p + t, radix) == x * radix + d;
      ScaleGrows(x, radix, d);
    } else {
      assert p + t == p;
    }
  }

  /**
   * The digit loop, resumed after a prefix `p` it has already consumed, computes the
   * positional value of `p + s` when that fits in 64 bits, and reports overflow when
   * `p + s` is all digits but too large.
   */
  lemma {:induction false} AccumulateFrom(p: string, s: string, radix: Radix)
    requires AllDigits(p, radix) && ValueOf(p, radix) <= U64_MAX
    ensures Accumulate(ValueOf(p, radix), s, radix).Ok?
        <==> AllDigits(s, radix) && AllDigits(p + s, radix) && ValueOf(p + s, radix) <= U64_MAX
    ensures AllDigits(s, radix) ==> AllDigits(p + s, radix)
    ensures AllDigits(s, radix) && Accumulate(ValueOf(p, radix), s, radix).Ok?
        ==> Accumulate(ValueOf(p, radix), s, radix).value == ValueOf(p + s, radix)
    ensures AllDigits(s, radix) && ValueOf(p + s, radix) > U64_MAX
        ==> Accumulate(ValueOf(p, radix), s, radix) == Err(PosOverflow)
    decreases |s|
  {
    if s == [] {
      assert p + s == p;
    } else {
      var acc := ValueOf(p, radix);
      match DigitValue(s[0], radix)
      case None =>
        assert !AllDigits(s, radix);
      case Some(d) =>
        var p' := p + [s[0]];
        assert AllDigits(p', radix) by {
          forall i | 0 <= i < |p'| ensures DigitValue(p'[i], radix).Some? {
            if i < |p| { assert p'[i] == p[i]; }
          }
        }
        assert p'[..|p'| - 1] == p;
        assert ValueOf(p', radix) == acc * radix + d;
        assert p' + s[1..] == p + s;
        if acc * radix + d > U64_MAX {
          if AllDigits(s, radix) {
            assert AllDigits(s[1..], radix) by {
              forall i | 0 <= i < |s[1..]| ensures DigitValue(s[1..][i], radix).Some? {
                assert s[1..][i] == s[i + 1];
              }
            }
            ValueOfMonotone(p', s[1..], radix);
          }
        } else {
          AccumulateFrom(p', s[1..], radix);
          assert AllDigits(s, radix) <==> AllDigits(s[1..], radix) by {
            if AllDigits(s[1..], radix) {
              forall i | 0 <= i < |s| ensures DigitValue(s[i], radix).Some? {
                if i > 0 { assert s[i] == s[1..][i - 1]; }
              }
            }
            if AllDigits(s, radix) {
              forall i | 0 <= i < |s[1..]| ensures DigitValue(s[1..][i], radix).Some? {
                assert s[1..][i] == s[i + 1];
              }
            }
          }
        }
    }
  }

  /**
   * The whole of `from_str_radix` for unsigned types: it succeeds exactly on an optional
   * '+' followed by at least one digit whose value fits in 64 bits, and then returns that
   * value; an empty input is `Empty`, a well-formed but too large number is `PosOverflow`
   * (never a wrapped value), and anything else is an error.
   */
  lemma FromStrRadixCorrect(src: string, radix: Radix)
    ensures FromStrRadix(src, radix).Ok?
        <==> WellFormed(src, radix) && ValueOf(Unsigned(src), radix) <= U64_MAX
    ensures FromStrRadix(src, radix).Ok? && WellFormed(src, radix)
        ==> FromStrRadix(src, radix).value == ValueOf(Unsigned(src), radix)
    ensures FromStrRadix(src, radix) == Err(Empty) <==> src == []
    ensures WellFormed(src, radix) && ValueOf(Unsigned(src), radix) > U64_MAX
        ==> FromStrRadix(src, radix) == Err(PosOverflow)
  {
    if src == [] {
    } else if src == ['+'] || src == ['-'] {
      assert Unsigned(src) == [] || Unsigned(src) == ['-'];
      assert DigitValue('-', radix).None?;
      assert !WellFormed(src, radix);
    } else {
      var body := Unsigned(src);
      assert ValueOf([], radix) == 0;
      assert [] + body == body;
      AccumulateFrom([], body, radix);
      assert src[0] == '+' ==> body != [];
    }
  }

  /** The digit loop over `p + s`, from the value of `q`, reaches `s` holding the value of `q + p` when that fits. */
  lemma {:induction false} AccumulateSplit(q: string, p: string, s: string, radix: Radix)
    requires AllDigits(q, radix) && AllDigits(q + p, radix) && ValueOf(q + p, radix) <= U64_MAX
    requires ValueOf(q, radix) <= U64_MAX
    ensures Accumulate(ValueOf(q, radix), p + s, radix) == Accumulate(ValueOf(q + p, radix), s, radix)
    decreases |p|
  {
    if p == [] {
      assert q + p == q && p + s == s;
    } else {
      var c := p[0];
      var q' := q + [c];
      assert (q + p)[|q|] == c;
      var d := DigitValue(c, radix).value;
      assert AllDigits(q', radix) by {
        forall i | 0 <= i < |q'| ensures DigitValue(q'[i], radix).Some? {
          assert q'[i] == (q + p)[i];
        }
      }
      assert q'[..|q'| - 1] == q;
      assert ValueOf(q', radix) == ValueOf(q, radix) * radix + d;
      assert q' + p[1..] == q + p;
      assert AllDigits(p[1..], radix) by {
        forall i | 0 <= i < |p[1..]| ensures DigitValue(p[1..][i], radix).Some? {
          assert p[1..][i] == (q + p)[|q| + 1 + i];
        }
      }
      ValueOfMonotone(q', p[1..], radix);
      assert (p + s)[0] == c && (p + s)[1..] == p[1..] + s;
      AccumulateSplit(q', p[1..], s, radix);
    }
  }

  /**
   * Which error a bad character gets: when every digit before the first non-digit is
   * valid and their value still fits in 64 bits, the parse fails with `InvalidDigit`.
   */
  lemma FirstBadDigit(src: string, radix: Radix, i: nat)
    requires i < |Unsigned(src)| && DigitValue(Unsigned(src)[i], radix).None?
    requires AllDigits(Unsigned(src)[..i], radix) && ValueOf(Unsigned(src)[..i], radix) <= U64_MAX
    ensures FromStrRadix(src, radix) == Err(InvalidDigit)
  {
    if src != ['-'] {
      var body := Unsigned(src);
      var p, s := body[..i], body[i..];
      assert [] + p == p && p + s == body;
      assert ValueOf([], radix) == 0;
      AccumulateSplit([], p, s, radix);
      assert s[0] == body[i];
    }
  }

  /** Once the digits read so far pass 2^64 - 1, the loop stops with `PosOverflow`, whatever follows. */
  lemma {:induction false} AccumulateOverflow(q: string, p: string, s: string, radix: Radix)
    requires p != [] && AllDigits(q, radix) && AllDigits(q + p, radix)
    requires ValueOf(q, radix) <= U64_MAX && ValueOf(q + p, radix) > U64_MAX
    ensures Accumulate(ValueOf(q, radix), p + s, radix) == Err(PosOverflow)
    decreases |p|
  {
    var c := p[0];
    var q' := q + [c];
    assert (q + p)[|q|] == c;
    var d := DigitValue(c, radix).value;
    assert AllDigits(q', radix) by {
      forall i | 0 <= i < |q'| ensures DigitValue(q'[i], radix).Some? {
        assert q'[i] == (q + p)[i];
      }
    }
    assert q'[..|q'| - 1] == q;
    assert ValueOf(q', radix) == ValueOf(q, radix) * radix + d;
    assert q' + p[1..] == q + p;
    assert (p + s)[0] == c && (p + s)[1..] == p[1..] + s;
    if |p| == 1 {
      assert q' == q + p;
    } else if ValueOf(q', radix) <= U64_MAX {
      AccumulateOverflow(q', p[1..], s, radix);
    }
  }

  /**
   * The other half of the error table: when the digits up to some position are all valid
   * and already pass 2^64 - 1, the parse fails with `PosOverflow`, even if a bad character
   * comes later.
   */
  lemma OverflowingPrefix(src: string, radix: Radix, i: nat)
    requires i <= |Unsigned(src)|
    requires AllDigits(Unsigned(src)[..i], radix) && ValueOf(Unsigned(src)[..i], radix) > U64_MAX
    ensures FromStrRadix(src, radix) == Err(PosOverflow)
  {
    var body := Unsigned(src);
    var p, s := body[..i], body[i..];
    assert ValueOf([], radix) == 0;
    assert p != [];
    assert src != ['+'] && src != ['-'];
    assert [] + p == p && p + s == body;
    AccumulateOverflow([], p, s, radix);
  }

  /** Encoding then taking the positional value gives the number back. */
  lemma {:induction false} ValueOfEncode(n: nat, radix: Radix)
    ensures ValueOf(Encode(n, radix), radix) == n
    decreases n
  {
    var s := Encode(n, radix);
    if n < radix {
      assert s[..0] == [];
    } else {
      var q, d := n / radix, n % radix;
      DivBounds(n, radix);
      ValueOfEncode(q, radix);
      assert s[..|s| - 1] == Encode(q, radix);
      assert DigitValue(s[|s| - 1], radix) == Some(d);
      calc {
        ValueOf(s, radix);
        ValueOf(Encode(q, radix), radix) * radix + d;
        q * radix + d;
      }
    }
  }

  /** Round trip: every 64-bit value, written in `radix`, parses back to itself. */
  lemma EncodeRoundTrip(n: U64, radix: Radix)
    ensures FromStrRadix(Encode(n, radix), radix) == Ok(n)
  {
    var s := Encode(n, radix);
    assert Unsigned(s) == s;
    ValueOfEncode(n, radix);
    FromStrRadixCorrect(s, radix);
  }

  /** A value above 2^64 - 1, written out in full, is an overflow error, not a wrapped value. */
  lemma EncodeOverflow(n: nat, radix: Radix)
    requires n > U64_MAX
    ensures FromStrRadix(Encode(n, radix), radix) == Err(PosOverflow)
  {
    var s := Encode(n, radix);
    assert Unsigned(s) == s;
    ValueOfEncode(n, radix);
    FromStrRadixCorrect(s, radix);
  }

  /** The upper-case form of a character: ASCII letters only, everything else unchanged. */
  function UpperChar(c: char): (u: char)
    ensures Base36Value(u) == Base36Value(c)
    ensures c == '+' || c == '-' <==> u == c && (u == '+' || u == '-')
  {
    if 'a' <= c <= 'z' then (c as nat - 'a' as nat + 'A' as nat) as char else c
  }

  /** The ASCII upper-case form of a string. */
  function Upper(s: string): (u: string)
    ensures |u| == |s|
    ensures forall i :: 0 <= i < |s| ==> u[i] == UpperChar(s[i])
  {
    seq(|s|, i requires 0 <= i < |s| => UpperChar(s[i]))
  }

  /** The digit loop sees only digit values, so two strings with the same values parse alike. */
  lemma {:induction false} AccumulateSameDigits(acc: U64, s: string, t: string, radix: Radix)
    requires |s| == |t|
    requires forall i :: 0 <= i < |s| ==> DigitValue(s[i], radix) == DigitValue(t[i], radix)
    ensures Accumulate(acc, s, radix) == Accumulate(acc, t, radix)
    decreases |s|
  {
    if s != [] {
      assert DigitValue(s[0], radix) == DigitValue(t[0], radix);
      match DigitValue(s[0], radix)
      case None =>
      case Some(d) =>
        if acc * radix + d <= U64_MAX {
          AccumulateSameDigits(acc * radix + d, s[1..], t[1..], radix);
        }
    }
  }

  /** Letter case is irrelevant: upper-casing the input never changes the parse, error or value. */
  lemma CaseInsensitive(src: string, radix: Radix)
    ensures FromStrRadix(Upper(src), radix) == FromStrRadix(src, radix)
  {
    var u := Upper(src);
    if src != [] {
      assert u[0] == UpperChar(src[0]);
      if src != ['+'] && src != ['-'] {
        assert u != ['+'] && u != ['-'];
        var a, b := Unsigned(src), Unsigned(u);
        assert |a| == |b|;
        forall i | 0 <= i < |a| ensures DigitValue(a[i], radix) == DigitValue(b[i], radix) {
          if src[0] == '+' {
            assert a[i] == src[i + 1] && b[i] == u[i + 1];
          } else {
            assert a[i] == src[i] && b[i] == u[i];
          }
        }
        AccumulateSameDigits(0, a, b, radix);
      } else {
        assert u == src;
      }
    }
  }
}
