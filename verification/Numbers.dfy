/** Numbers as texts and as bytes: what a decimal text stands for, how a number is printed,
    and in which order its bytes are stored. */
module Numbers {
  import opened Wrappers
  import opened Codec

  predicate IsDigit(c: char) {
    '0' <= c <= '9'
  }

  predicate AllDigits(s: string) {
    forall i :: 0 <= i < |s| ==> IsDigit(s[i])
  }

  function Digit(c: char): nat
    requires IsDigit(c)
  {
    c as int - '0' as int
  }

  /** The last digit counts once, the one before it ten times, and so on. */
  function DecimalValue(s: string): nat
    requires AllDigits(s)
  {
    if s == [] then 0 else 10 * DecimalValue(s[..|s| - 1]) + Digit(s[|s| - 1])
  }

  lemma {:induction false} DigitsSplit(s: string, acc: nat)
    requires s != []
    ensures var n := |s| - 1;
      ParseDigits(s, acc) ==
        if ParseDigits(s[..n], acc).Some? && IsDigit(s[n]) then
          Some(10 * ParseDigits(s[..n], acc).value + Digit(s[n]))
        else None
  {
    var n := |s| - 1;
    if n == 0 {
      assert s[1..] == [] && s[..0] == [];
    } else if IsDigit(s[0]) {
      assert s[..n][1..] == s[1..][..n - 1];
      DigitsSplit(s[1..], acc * 10 + Digit(s[0]));
    }
  }

  lemma {:induction false} DigitsParse(s: string)
    ensures ParseDigits(s, 0) == if AllDigits(s) then Some(DecimalValue(s)) else None
  {
    if s != [] {
      var n := |s| - 1;
      DigitsSplit(s, 0);
      DigitsParse(s[..n]);
      assert AllDigits(s) <==> AllDigits(s[..n]) && IsDigit(s[n]);
    }
  }

  predicate HasSign(s: string) {
    s != [] && (s[0] == '-' || s[0] == '+')
  }

  function Unsigned(s: string): string {
    if HasSign(s) then s[1..] else s
  }

  /** Exactly the texts of at least one digit after an optional sign parse, if what they
      stand for has 64 bits. */
  lemma ParseIntExactly(s: string)
    ensures ParseInt(s).Some? <==>
      Unsigned(s) != [] && AllDigits(Unsigned(s)) &&
      if HasSign(s) && s[0] == '-' then DecimalValue(Unsigned(s)) <= 0x8000_0000_0000_0000
      else DecimalValue(Unsigned(s)) < 0x8000_0000_0000_0000
    ensures ParseInt(s).Some? ==>
      ParseInt(s).value ==
        if HasSign(s) && s[0] == '-' then 0 - DecimalValue(Unsigned(s)) as int
        else DecimalValue(Unsigned(s))
  {
    DigitsParse(Unsigned(s));
  }

  // ----- Printing -----

  function PrintNat(n: nat): (s: string)
    ensures s != [] && AllDigits(s)
  {
    var last := [('0' as int + n % 10) as char];
    if n < 10 then last else PrintNat(n / 10) + last
  }

  function PrintInt(i: int): string {
    if i < 0 then "-" + PrintNat(-i) else PrintNat(i)
  }

  lemma {:induction false} PrintedValue(n: nat)
    ensures DecimalValue(PrintNat(n)) == n
  {
    var s := PrintNat(n);
    if n >= 10 {
      PrintedValue(n / 10);
      assert s[..|s| - 1] == PrintNat(n / 10);
    } else {
      assert s[..0] == [];
    }
  }

  /** Every 64-bit number parses back from its print, with or without a plus sign. */
  lemma PrintedParses(i: int)
    requires -0x8000_0000_0000_0000 <= i < 0x8000_0000_0000_0000
    ensures ParseInt(PrintInt(i)) == Some(i)
    ensures i >= 0 ==> ParseInt("+" + PrintInt(i)) == Some(i)
  {
    var n: nat := if i < 0 then -i else i;
    var s := PrintNat(n);
    PrintedValue(n);
    assert IsDigit(s[0]);
    ParseIntExactly(PrintInt(i));
    ParseIntExactly("+" + s);
    assert ("-" + s)[1..] == s && ("+" + s)[1..] == s;
  }

  // ----- Values of other types -----

  /** A text of ASCII characters is stored as itself. */
  lemma TextParses(lib: Parsers, s: string)
    requires |s| < 0x1_0000_0000_0000_0000 && forall i :: 0 <= i < |s| ==> s[i] as int < 128
    ensures var v := ParseScalar(lib, s, String);
      v.Some? && v.value.Bytes? && |v.value.bytes| == |s| &&
      forall i :: 0 <= i < |s| ==> v.value.bytes[i] == s[i] as int
  {
  }

  /** The elements of a list are parsed in order, all or none; a single value is parsed as
      an element of a list is. */
  lemma {:induction false} ElementsParse(lib: Parsers, values: seq<string>, typ: AttributeType, ss: seq<Scalar>)
    ensures ParseScalars(lib, values, typ) == Some(ss) <==>
      |ss| == |values| && forall i :: 0 <= i < |values| ==> ParseScalar(lib, values[i], typ) == Some(ss[i])
    decreases |values|
  {
    hide ParseScalar;
    if values != [] && ss != [] {
      ElementsParse(lib, values[1..], typ, ss[1..]);
      var first := ParseScalar(lib, values[0], typ);
      assert ss == [ss[0]] + ss[1..];
      assert forall i :: 0 <= i < |values[1..]| ==> values[1..][i] == values[i + 1];
      assert forall i :: 0 <= i < |ss[1..]| ==> ss[1..][i] == ss[i + 1];
      assert forall i :: 0 < i < |values| ==> values[i] == values[1..][i - 1];
    }
  }

  // ----- Bytes -----

  lemma {:induction false} Zeros(width: nat)
    ensures var b := LittleEndian(0, width); forall k :: 0 <= k < width ==> b[k] == 0
  {
    if width > 0 {
      Zeros(width - 1);
      assert LittleEndian(0, width) == [0] + LittleEndian(0, width - 1);
    }
  }

  lemma PowerIsPositive(width: nat)
    ensures Power256(width) > 0
  {
  }

  /** The greatest number of so many bytes. */
  lemma {:induction false} Ones(width: nat)
    ensures Power256(width) > 0
    ensures var b := LittleEndian(Power256(width) - 1, width); forall k :: 0 <= k < width ==> b[k] == 255
  {
    PowerIsPositive(width);
    if width > 0 {
      Ones(width - 1);
      var p, n := Power256(width - 1), Power256(width) - 1;
      assert n == 256 * (p - 1) + 255;
      assert n % 256 == 255 && n / 256 == p - 1;
      assert LittleEndian(n, width) == [255] + LittleEndian(p - 1, width - 1);
    }
  }

  /** Small numbers take the first byte, or the first two. */
  lemma SmallBytes(low: byte, high: byte)
    ensures LittleEndian(low + 256 * high, 8) == [low, high, 0, 0, 0, 0, 0, 0]
  {
    var n := low + 256 * high;
    assert n % 256 == low && n / 256 == high && high % 256 == high && high / 256 == 0;
    Zeros(6);
    assert LittleEndian(high, 7) == [high] + LittleEndian(0, 6);
    assert LittleEndian(n, 8) == [low] + LittleEndian(high, 7);
  }

  /** Some values as they are stored: eight bytes, the lowest first, for a number or a
      length, then the bytes of a text or the elements of a list. */
  lemma BytesAsStored()
    ensures Encode(One(Int64(258)), Integer, false) == [2, 1, 0, 0, 0, 0, 0, 0]
    ensures Encode(One(Int64(-1)), Integer, false) == [255, 255, 255, 255, 255, 255, 255, 255]
    ensures Encode(One(Bytes([97, 98])), String, false) == [2, 0, 0, 0, 0, 0, 0, 0, 97, 98]
    ensures Encode(Many([Int64(7)]), Integer, true) == [1, 0, 0, 0, 0, 0, 0, 0, 7, 0, 0, 0, 0, 0, 0, 0]
  {
    hide LittleEndian;
    SmallBytes(2, 1);
    SmallBytes(2, 0);
    SmallBytes(1, 0);
    SmallBytes(7, 0);
    PowerEight();
    Ones(8);
    assert EncodeInt(-1) == LittleEndian(TWO_64 - 1, 8);
    assert [Int64(7)][1..] == [];
    assert EncodeScalars([], Integer) == [];
    assert EncodeScalars([Int64(7)], Integer) == EncodeInt(7) + [];
  }
}
