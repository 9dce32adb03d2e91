/** Byte strings: searching, cutting, and decimal numbers. */
module ByteStrings {
  import opened Basics

  newtype byte = x: int | 0 <= x < 256
  type Bytes = seq<byte>

  const COLON: byte := 0x3a
  const MAX_INT: int := 0x7fff_ffff_ffff_ffff

  predicate IsPrefix(a: Bytes, b: Bytes) { |a| <= |b| && b[..|a|] == a }

  lemma {:induction false} TakeAppend(a: Bytes, b: Bytes, n: nat)
    requires n <= |a|
    ensures (a + b)[..n] == a[..n]
    ensures n == |a| ==> (a + b)[..n] == a
  {
  }

  /** First position of `b`, or -1. */
  function IndexByte(s: Bytes, b: byte): (r: int)
    ensures -1 <= r < |s|
  {
    if s == [] then -1
    else if s[0] == b then 0
    else
      var r := IndexByte(s[1..], b);
      if r < 0 then -1 else r + 1
  }

  lemma {:induction false} IndexBytePrefix(s: Bytes, t: Bytes, b: byte)
    ensures IndexByte(s, b) >= 0 ==> IndexByte(s + t, b) == IndexByte(s, b)
    ensures IndexByte(s, b) < 0 ==> IndexByte(s + t, b) < 0 || IndexByte(s + t, b) >= |s|
    decreases |s|
  {
    if s != [] {
      assert (s + t)[1..] == s[1..] + t;
      IndexBytePrefix(s[1..], t, b);
    }
  }

  lemma {:induction false} IndexByteAt(a: Bytes, sep: byte, b: Bytes)
    requires IndexByte(a, sep) < 0
    ensures IndexByte(a + [sep] + b, sep) == |a|
    decreases |a|
  {
    if a != [] {
      assert (a + [sep] + b)[1..] == a[1..] + [sep] + b;
      IndexByteAt(a[1..], sep, b);
    }
  }

  lemma {:induction false} NoByteAppend(s: Bytes, t: Bytes, b: byte)
    requires IndexByte(s, b) < 0 && IndexByte(t, b) < 0
    ensures IndexByte(s + t, b) < 0
    decreases |s|
  {
    if s == [] {
      assert s + t == t;
    } else {
      assert (s + t)[1..] == s[1..] + t;
      NoByteAppend(s[1..], t, b);
    }
  }

  /** The text before the first `sep`, and the text after it if there is one. */
  function Cut(s: Bytes, sep: byte): (Bytes, Option<Bytes>) {
    var i := IndexByte(s, sep);
    if i < 0 then (s, None) else (s[..i], Some(s[i + 1..]))
  }

  lemma {:induction false} CutAt(a: Bytes, sep: byte, b: Bytes)
    requires IndexByte(a, sep) < 0
    ensures Cut(a + [sep] + b, sep) == (a, Some(b))
  {
    IndexByteAt(a, sep, b);
    assert (a + [sep] + b)[..|a|] == a && (a + [sep] + b)[|a| + 1..] == b;
  }

  predicate IsDigit(b: byte) { 0x30 <= b <= 0x39 }

  predicate AllDigits(s: Bytes) { s == [] || (IsDigit(s[0]) && AllDigits(s[1..])) }

  /** The number that decimal digits continue from `value`. */
  function DigitsValue(value: nat, s: Bytes): nat
    requires AllDigits(s)
    decreases |s|
  {
    if s == [] then value else DigitsValue(10 * value + (s[0] - 0x30) as nat, s[1..])
  }

  function Digits(n: nat): Bytes {
    if n < 10 then [0x30 + n as byte] else Digits(n / 10) + [0x30 + (n % 10) as byte]
  }

  lemma {:induction false} DigitsValueSnoc(value: nat, s: Bytes, d: byte)
    requires AllDigits(s) && IsDigit(d)
    ensures AllDigits(s + [d])
    ensures DigitsValue(value, s + [d]) == 10 * DigitsValue(value, s) + (d - 0x30) as nat
    decreases |s|
  {
    if s == [] {
      assert [d][1..] == [];
    } else {
      assert (s + [d])[1..] == s[1..] + [d];
      DigitsValueSnoc(10 * value + (s[0] - 0x30) as nat, s[1..], d);
    }
  }

  lemma {:induction false} DigitsParse(n: nat)
    ensures Digits(n) != [] && AllDigits(Digits(n)) && DigitsValue(0, Digits(n)) == n
  {
    if n < 10 {
      assert [0x30 + n as byte][1..] == [];
    } else {
      DigitsParse(n / 10);
      DigitsValueSnoc(0, Digits(n / 10), 0x30 + (n % 10) as byte);
    }
  }

  // ---- Decimal numbers read from the back ---------------------------------

  /** ASCII `0` to `9`. */
  ghost predicate Numeral(s: Bytes) {
    s != [] && forall i :: 0 <= i < |s| ==> 0x30 <= s[i] <= 0x39
  }

  ghost function Value(s: Bytes): nat
    requires forall i :: 0 <= i < |s| ==> 0x30 <= s[i] <= 0x39
  {
    if s == [] then 0 else 10 * Value(s[..|s| - 1]) + (s[|s| - 1] - 0x30) as nat
  }

  lemma {:induction false} NumeralParses(s: Bytes)
    requires Numeral(s)
    ensures AllDigits(s) && DigitsValue(0, s) == Value(s)
    decreases |s|
  {
    var n := |s| - 1;
    if n == 0 {
      assert s == [s[0]] && s[..0] == [] && s[1..] == [];
    } else {
      NumeralParses(s[..n]);
      DigitsValueSnoc(0, s[..n], s[n]);
      assert s == s[..n] + [s[n]];
    }
  }

  lemma {:induction false} DigitsAreNumeral(s: Bytes)
    requires AllDigits(s)
    ensures forall i :: 0 <= i < |s| ==> 0x30 <= s[i] <= 0x39
    decreases |s|
  {
    if s != [] {
      DigitsAreNumeral(s[1..]);
      forall i | 0 < i < |s| ensures 0x30 <= s[i] <= 0x39 {
        assert s[i] == s[1..][i - 1];
      }
    }
  }
}
