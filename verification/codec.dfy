/** The text record of one reading, "%d,%d,%d,%d\n" over (i, j, k, value),
    formatted into a 256-byte buffer, and a decoder for the receiving end. */
module Codec {

  /** The range of a C `int` on the target: 32-bit two's complement. */
  predicate InInt32(x: int)
  {
    -0x8000_0000 <= x < 0x8000_0000
  }

  type Int32 = x: int | InInt32(x)

  /** Size of the character buffer the record is formatted into. */
  const BufferSize: nat := 256

  /** One reading: electrode k sensed while pair (i, j) was excited. */
  datatype Record = Record(i: int, j: int, k: int, value: int)

  datatype Option<T> = None | Some(value: T) {
    predicate IsFailure() { None? }

    function PropagateFailure<U>(): Option<U>
      requires None?
    {
      None
    }

    function Extract(): T
      requires Some?
    {
      value
    }
  }

  predicate IsDigit(c: char)
  {
    '0' <= c <= '9'
  }

  function DigitValue(c: char): nat
    requires IsDigit(c)
  {
    (c as int) - ('0' as int)
  }

  function DigitChar(d: nat): (c: char)
    requires d < 10
    ensures IsDigit(c) && DigitValue(c) == d
  {
    (('0' as int) + d) as char
  }

  // ---------------------------------------------------------------------
  // Encoding

  /** `%d` of a non-negative value: decimal digits, most significant first,
      with no leading zero. */
  function NatToDec(x: nat): (s: string)
    ensures |s| > 0
    ensures forall c :: c in s ==> IsDigit(c)
    ensures |s| > 1 ==> s[0] != '0'
    decreases x
  {
    if x < 10 then [DigitChar(x)] else NatToDec(x / 10) + [DigitChar(x % 10)]
  }

  /** `%d` of any value: a minus sign before the magnitude when negative. */
  function IntToDec(x: int): string
  {
    if x < 0 then ['-'] + NatToDec(-x) else NatToDec(x)
  }

  /** The line sprintf writes for one reading. */
  function Encode(r: Record): string
  {
    IntToDec(r.i) + [','] + IntToDec(r.j) + [','] + IntToDec(r.k) + [','] + IntToDec(r.value) + ['\n']
  }

  // ---------------------------------------------------------------------
  // Decoding

  /** Length of the run of digits that starts the text. */
  function DigitRun(s: string): (d: nat)
    ensures d <= |s|
    ensures forall x :: 0 <= x < d ==> IsDigit(s[x])
    ensures d < |s| ==> !IsDigit(s[d])
    decreases |s|
  {
    if s == [] || !IsDigit(s[0]) then 0 else 1 + DigitRun(s[1..])
  }

  /** Value of a string of decimal digits. */
  function DecValue(ds: string): nat
    requires forall c :: c in ds ==> IsDigit(c)
    decreases |ds|
  {
    if ds == [] then 0 else 10 * DecValue(ds[..|ds| - 1]) + DigitValue(ds[|ds| - 1])
  }

  /** A non-empty run of digits, and the text after it. */
  function ParseNat(s: string): Option<(nat, string)>
  {
    var d := DigitRun(s);
    if d == 0 then None else Some((DecValue(s[..d]), s[d..]))
  }

  /** An optional minus sign and a non-empty run of digits. */
  function ParseInt(s: string): Option<(int, string)>
  {
    if |s| > 0 && s[0] == '-' then
      var r :- ParseNat(s[1..]);
      Some((-(r.0 as int), r.1))
    else
      var r :- ParseNat(s);
      Some((r.0, r.1))
  }

  /** An integer followed by the separator `sep`. */
  function Field(s: string, sep: char): Option<(int, string)>
  {
    var r :- ParseInt(s);
    if |r.1| > 0 && r.1[0] == sep then Some((r.0, r.1[1..])) else None
  }

  /** Read one line back into a record: three comma-terminated integers and
      a newline-terminated one, with nothing after the newline. */
  function Decode(line: string): Option<Record>
  {
    var a :- Field(line, ',');
    var b :- Field(a.1, ',');
    var c :- Field(b.1, ',');
    var d :- Field(c.1, '\n');
    if d.1 == [] then Some(Record(a.0, b.0, c.0, d.0)) else None
  }

  // ---------------------------------------------------------------------
  // Round trip

  lemma {:induction false} NatToDecValue(x: nat)
    ensures DecValue(NatToDec(x)) == x
    decreases x
  {
    var s := NatToDec(x);
    if x >= 10 {
      NatToDecValue(x / 10);
      assert s[..|s| - 1] == NatToDec(x / 10);
    }
  }

  lemma {:induction false} DigitRunOver(ds: string, rest: string)
    requires forall c :: c in ds ==> IsDigit(c)
    requires rest == [] || !IsDigit(rest[0])
    ensures DigitRun(ds + rest) == |ds|
    decreases |ds|
  {
    if ds != [] {
      assert ds[0] in ds;
      assert (ds + rest)[1..] == ds[1..] + rest;
      DigitRunOver(ds[1..], rest);
    } else {
      assert ds + rest == rest;
    }
  }

  lemma ParseNatRoundTrip(x: nat, rest: string)
    requires rest == [] || !IsDigit(rest[0])
    ensures ParseNat(NatToDec(x) + rest) == Some((x, rest))
  {
    var s := NatToDec(x) + rest;
    DigitRunOver(NatToDec(x), rest);
    assert s[..|NatToDec(x)|] == NatToDec(x);
    assert s[|NatToDec(x)|..] == rest;
    NatToDecValue(x);
  }

  lemma ParseNegativeRoundTrip(x: int, rest: string)
    requires x < 0
    requires rest == [] || !IsDigit(rest[0])
    ensures ParseInt(IntToDec(x) + rest) == Some((x, rest))
  {
    var m: nat := -x;
    var d := NatToDec(m);
    assert IntToDec(x) == ['-'] + d;
    var s := ['-'] + d + rest;
    assert s[0] == '-' && s[1..] == d + rest;
    assert ParseNat(s[1..]) == Some((m, rest)) by {
      ParseNatRoundTrip(m, rest);
    }
  }

  lemma ParseNonNegativeRoundTrip(x: int, rest: string)
    requires x >= 0
    requires rest == [] || !IsDigit(rest[0])
    ensures ParseInt(IntToDec(x) + rest) == Some((x, rest))
  {
    var s := IntToDec(x) + rest;
    assert s[0] == NatToDec(x)[0];
    assert NatToDec(x)[0] in NatToDec(x);
    ParseNatRoundTrip(x, rest);
  }

  /** `%d` text is read back to the same integer, whatever follows it as
      long as it does not start with a digit. */
  lemma ParseIntRoundTrip(x: int, rest: string)
    requires rest == [] || !IsDigit(rest[0])
    ensures ParseInt(IntToDec(x) + rest) == Some((x, rest))
  {
    if x < 0 {
      ParseNegativeRoundTrip(x, rest);
    } else {
      ParseNonNegativeRoundTrip(x, rest);
    }
  }

  lemma FieldRoundTrip(x: int, sep: char, rest: string)
    requires !IsDigit(sep)
    ensures Field(IntToDec(x) + [sep] + rest, sep) == Some((x, rest))
  {
    assert IntToDec(x) + [sep] + rest == IntToDec(x) + ([sep] + rest);
    ParseIntRoundTrip(x, [sep] + rest);
    assert ([sep] + rest)[1..] == rest;
  }

  /** Decoding an encoded record gives back the same four integers. */
  lemma DecodeEncode(r: Record)
    ensures Decode(Encode(r)) == Some(r)
  {
    var d := IntToDec(r.value) + ['\n'] + [];
    var c := IntToDec(r.k) + [','] + d;
    var b := IntToDec(r.j) + [','] + c;
    var line := IntToDec(r.i) + [','] + b;
    assert Encode(r) == line;
    FieldRoundTrip(r.i, ',', b);
    FieldRoundTrip(r.j, ',', c);
    FieldRoundTrip(r.k, ',', d);
    FieldRoundTrip(r.value, '\n', []);
  }

  // ---------------------------------------------------------------------
  // Shape and size of a line

  lemma IntToDecChars(x: int)
    ensures forall c :: c in IntToDec(x) ==> IsDigit(c) || c == '-'
    ensures ',' !in IntToDec(x) && '\n' !in IntToDec(x)
  {
  }

  /** A line is four decimal integers separated by three commas and ended by
      its only newline. */
  lemma EncodeShape(r: Record)
    ensures |Encode(r)| > 0 && Encode(r)[|Encode(r)| - 1] == '\n'
    ensures forall c :: c in Encode(r) ==> IsDigit(c) || c == '-' || c == ',' || c == '\n'
    ensures multiset(Encode(r))[','] == 3
    ensures multiset(Encode(r))['\n'] == 1
  {
    IntToDecChars(r.i);
    IntToDecChars(r.j);
    IntToDecChars(r.k);
    IntToDecChars(r.value);
    assert multiset(IntToDec(r.i))[','] == 0 && multiset(IntToDec(r.i))['\n'] == 0;
    assert multiset(IntToDec(r.j))[','] == 0 && multiset(IntToDec(r.j))['\n'] == 0;
    assert multiset(IntToDec(r.k))[','] == 0 && multiset(IntToDec(r.k))['\n'] == 0;
    assert multiset(IntToDec(r.value))[','] == 0 && multiset(IntToDec(r.value))['\n'] == 0;
  }

  function Pow10(m: nat): nat
  {
    if m == 0 then 1 else 10 * Pow10(m - 1)
  }

  lemma {:induction false} NatToDecLength(x: nat, m: nat)
    requires 1 <= m && x < Pow10(m)
    ensures |NatToDec(x)| <= m
    decreases m
  {
    if m == 1 {
      assert Pow10(m) == 10;
    } else if x >= 10 {
      NatToDecLength(x / 10, m - 1);
    }
  }

  /** A 32-bit value prints in at most eleven characters. */
  lemma IntToDecLength(x: int)
    requires InInt32(x)
    ensures |IntToDec(x)| <= 11
  {
    assert Pow10(10) == 10_000_000_000;
    if x < 0 {
      NatToDecLength(-x, 10);
    } else {
      NatToDecLength(x, 10);
    }
  }

  /** For 32-bit fields a line is at most 48 characters, so with its
      terminating NUL it always fits the 256-byte buffer. */
  lemma EncodeFitsBuffer(r: Record)
    requires InInt32(r.i) && InInt32(r.j) && InInt32(r.k) && InInt32(r.value)
    ensures |Encode(r)| <= 48
    ensures |Encode(r)| + 1 <= BufferSize
  {
    IntToDecLength(r.i);
    IntToDecLength(r.j);
    IntToDecLength(r.k);
    IntToDecLength(r.value);
  }
}
