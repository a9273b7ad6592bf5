/** The binary form of attribute values: little-endian integers of eight bytes, and
    byte strings and lists preceded by their length in eight bytes. */
module Codec {
  import opened Wrappers

  const TWO_63: int := 0x8000_0000_0000_0000
  const TWO_64: int := 0x1_0000_0000_0000_0000

  type byte = b: int | 0 <= b < 256

  datatype AttributeType = String | Integer | JpegPhoto | DateTime

  /** A single value: a signed integer, or the bytes of a text, photo or date. */
  datatype Scalar = Int64(value: int) | Bytes(bytes: seq<byte>)

  datatype Value = One(scalar: Scalar) | Many(scalars: seq<Scalar>)

  // ----- Types -----

  /** Texts that the server can hold: ASCII, with a length of 64 bits. */
  predicate IsText(s: string) {
    |s| < TWO_64 && forall i :: 0 <= i < |s| ==> s[i] as int < 128
  }

  predicate IsTextBytes(b: seq<byte>) {
    forall i :: 0 <= i < |b| ==> b[i] < 128
  }

  predicate ScalarHasType(s: Scalar, typ: AttributeType) {
    match s
    case Int64(i) => typ == Integer && -TWO_63 <= i < TWO_63
    case Bytes(b) => typ != Integer && |b| < TWO_64 && (typ == String ==> IsTextBytes(b))
  }

  predicate HasType(v: Value, typ: AttributeType, isList: bool) {
    match v
    case One(s) => !isList && ScalarHasType(s, typ)
    case Many(ss) => isList && |ss| < TWO_64 && forall i :: 0 <= i < |ss| ==> ScalarHasType(ss[i], typ)
  }

  // ----- Encoding -----

  function LittleEndian(n: nat, width: nat): (b: seq<byte>)
    ensures |b| == width
  {
    if width == 0 then [] else [n % 256] + LittleEndian(n / 256, width - 1)
  }

  function EncodeInt(i: int): seq<byte>
    requires -TWO_63 <= i < TWO_64
  {
    LittleEndian(if i < 0 then i + TWO_64 else i, 8)
  }

  function EncodeScalar(s: Scalar, typ: AttributeType): seq<byte>
    requires ScalarHasType(s, typ)
  {
    match s
    case Int64(i) => EncodeInt(i)
    case Bytes(b) => EncodeInt(|b|) + b
  }

  function EncodeScalars(ss: seq<Scalar>, typ: AttributeType): seq<byte>
    requires forall i :: 0 <= i < |ss| ==> ScalarHasType(ss[i], typ)
  {
    if ss == [] then [] else EncodeScalar(ss[0], typ) + EncodeScalars(ss[1..], typ)
  }

  function Encode(v: Value, typ: AttributeType, isList: bool): seq<byte>
    requires HasType(v, typ, isList)
  {
    match v
    case One(s) => EncodeScalar(s, typ)
    case Many(ss) => EncodeInt(|ss|) + EncodeScalars(ss, typ)
  }

  // ----- Decoding -----

  function FromLittleEndian(b: seq<byte>): nat {
    if b == [] then 0 else b[0] + 256 * FromLittleEndian(b[1..])
  }

  /** The next eight bytes as an unsigned integer, and what follows. */
  function TakeU64(b: seq<byte>): Option<(nat, seq<byte>)> {
    if |b| < 8 then None else Some((FromLittleEndian(b[..8]), b[8..]))
  }

  function TakeScalar(b: seq<byte>, typ: AttributeType): Option<(Scalar, seq<byte>)> {
    var (n, rest) :- TakeU64(b);
    if typ == Integer then Some((Int64(if n < TWO_63 then n else n - TWO_64), rest))
    else if |rest| < n || (typ == String && !IsTextBytes(rest[..n])) then None
    else Some((Bytes(rest[..n]), rest[n..]))
  }

  function TakeScalars(b: seq<byte>, typ: AttributeType, count: nat): Option<(seq<Scalar>, seq<byte>)> {
    if count == 0 then Some(([], b))
    else
      var (first, rest) :- TakeScalar(b, typ);
      var (others, end) :- TakeScalars(rest, typ, count - 1);
      Some(([first] + others, end))
  }

  /** Decoding ignores what follows the value. */
  function Decode(b: seq<byte>, typ: AttributeType, isList: bool): Option<Value> {
    if isList then
      var (n, rest) :- TakeU64(b);
      var (ss, _) :- TakeScalars(rest, typ, n);
      Some(Many(ss))
    else
      var (s, _) :- TakeScalar(b, typ);
      Some(One(s))
  }

  // ----- Round trips -----

  function Power256(n: nat): nat {
    if n == 0 then 1 else 256 * Power256(n - 1)
  }

  lemma {:induction false} LittleEndianRoundTrip(n: nat, width: nat)
    requires n < Power256(width)
    ensures FromLittleEndian(LittleEndian(n, width)) == n
    decreases width
  {
    if width > 0 {
      LittleEndianRoundTrip(n / 256, width - 1);
      assert LittleEndian(n, width)[1..] == LittleEndian(n / 256, width - 1);
    }
  }

  lemma {:induction false} LittleEndianInverse(b: seq<byte>)
    ensures LittleEndian(FromLittleEndian(b), |b|) == b
    decreases |b|
  {
    if b != [] {
      LittleEndianInverse(b[1..]);
      var n, m := FromLittleEndian(b), FromLittleEndian(b[1..]);
      assert n == b[0] + 256 * m;
      assert n % 256 == b[0] && n / 256 == m;
      assert b == [b[0]] + b[1..];
    }
  }

  lemma PowerEight()
    ensures Power256(8) == TWO_64
  {
    assert Power256(4) == 0x1_0000_0000;
    assert Power256(6) == 256 * (256 * Power256(4));
    assert Power256(8) == 256 * (256 * Power256(6));
  }

  lemma TakeEncodedInt(i: int, rest: seq<byte>)
    requires -TWO_63 <= i < TWO_64
    ensures TakeU64(EncodeInt(i) + rest) == Some((if i < 0 then i + TWO_64 else i, rest))
  {
    PowerEight();
    LittleEndianRoundTrip(if i < 0 then i + TWO_64 else i, 8);
    var b := EncodeInt(i) + rest;
    assert b[..8] == EncodeInt(i) && b[8..] == rest;
  }

  lemma TakeEncodedScalar(s: Scalar, typ: AttributeType, rest: seq<byte>)
    requires ScalarHasType(s, typ)
    ensures TakeScalar(EncodeScalar(s, typ) + rest, typ) == Some((s, rest))
  {
    match s
    case Int64(i) => TakeEncodedInt(i, rest);
    case Bytes(b) =>
      TakeEncodedInt(|b|, b + rest);
      assert EncodeScalar(s, typ) + rest == EncodeInt(|b|) + (b + rest);
      assert (b + rest)[..|b|] == b && (b + rest)[|b|..] == rest;
  }

  lemma TakeScalarsStep(b: seq<byte>, typ: AttributeType, count: nat, first: Scalar, middle: seq<byte>,
                        others: seq<Scalar>, end: seq<byte>)
    requires count > 0
    requires TakeScalar(b, typ) == Some((first, middle))
    requires TakeScalars(middle, typ, count - 1) == Some((others, end))
    ensures TakeScalars(b, typ, count) == Some(([first] + others, end))
  {
  }

  lemma {:induction false} TakeEncodedScalars(ss: seq<Scalar>, typ: AttributeType, rest: seq<byte>)
    requires forall i :: 0 <= i < |ss| ==> ScalarHasType(ss[i], typ)
    ensures TakeScalars(EncodeScalars(ss, typ) + rest, typ, |ss|) == Some((ss, rest))
  {
    hide TakeScalar, EncodeScalar;
    if ss == [] {
      assert EncodeScalars(ss, typ) + rest == rest;
    } else {
      var tail := EncodeScalars(ss[1..], typ);
      assert EncodeScalars(ss, typ) + rest == EncodeScalar(ss[0], typ) + (tail + rest);
      TakeEncodedScalar(ss[0], typ, tail + rest);
      TakeEncodedScalars(ss[1..], typ, rest);
      TakeScalarsStep(EncodeScalars(ss, typ) + rest, typ, |ss|, ss[0], tail + rest, ss[1..], rest);
      assert [ss[0]] + ss[1..] == ss;
    }
  }

  /** Decoding at the type it was encoded with gives the value back, whatever
      bytes follow. */
  lemma RoundTrip(v: Value, typ: AttributeType, isList: bool, rest: seq<byte>)
    requires HasType(v, typ, isList)
    ensures Decode(Encode(v, typ, isList) + rest, typ, isList) == Some(v)
  {
    match v
    case One(s) => TakeEncodedScalar(s, typ, rest);
    case Many(ss) =>
      var b := Encode(v, typ, isList) + rest;
      assert b == EncodeInt(|ss|) + (EncodeScalars(ss, typ) + rest);
      TakeEncodedInt(|ss|, EncodeScalars(ss, typ) + rest);
      TakeEncodedScalars(ss, typ, rest);
  }

  /** At one type, values and bytes correspond one to one: comparing the stored bytes
      compares the values. */
  lemma Injective(v: Value, w: Value, typ: AttributeType, isList: bool)
    requires HasType(v, typ, isList) && HasType(w, typ, isList)
    ensures Encode(v, typ, isList) == Encode(w, typ, isList) <==> v == w
  {
    RoundTrip(v, typ, isList, []);
    RoundTrip(w, typ, isList, []);
    assert Encode(v, typ, isList) + [] == Encode(v, typ, isList);
    assert Encode(w, typ, isList) + [] == Encode(w, typ, isList);
  }

  /** Across types they do not: the empty list and the integer zero have the same
      bytes, so the type must come from the schema. */
  lemma NotInjectiveAcrossTypes()
    ensures Encode(Many([]), String, true) == Encode(One(Int64(0)), Integer, false)
  {
    assert EncodeScalars([], String) == [];
  }

  /** Every stored value starts with eight bytes that read as an integer. */
  lemma DecodesAsInteger(v: Value, typ: AttributeType, isList: bool)
    requires HasType(v, typ, isList)
    ensures Decode(Encode(v, typ, isList), Integer, false).Some?
  {
  }

  lemma {:induction false} FromLittleEndianBound(b: seq<byte>)
    ensures FromLittleEndian(b) < Power256(|b|)
    decreases |b|
  {
    if b != [] {
      FromLittleEndianBound(b[1..]);
    }
  }

  /** Eight bytes, and only they, are the encoding of the number that they read as. */
  lemma NumberBytes(b: seq<byte>, i: int)
    requires -TWO_63 <= i < TWO_63
    ensures b == Encode(One(Int64(i)), Integer, false) <==> |b| == 8 && Decode(b, Integer, false) == Some(One(Int64(i)))
  {
    if b == Encode(One(Int64(i)), Integer, false) {
      RoundTrip(One(Int64(i)), Integer, false, []);
      assert b + [] == b;
    }
    if |b| == 8 && Decode(b, Integer, false) == Some(One(Int64(i))) {
      PowerEight();
      FromLittleEndianBound(b);
      LittleEndianInverse(b);
      assert b[..8] == b;
    }
  }

  // ----- Parsing -----

  /** Parsers of foreign libraries: RFC 3339 dates and base64-encoded photos. Any
      functions will do whose results fit in memory. */
  datatype Parsers = Parsers(date: string -> Option<seq<byte>>, photo: string -> Option<seq<byte>>)

  function TextBytes(s: string): (b: seq<byte>)
    ensures |b| == |s|
  {
    seq(|s|, i requires 0 <= i < |s| => s[i] as int % 256)
  }

  function BytesText(b: seq<byte>): string
    requires IsTextBytes(b)
  {
    seq(|b|, i requires 0 <= i < |b| => b[i] as char)
  }

  lemma TextRoundTrip(s: string)
    requires IsText(s)
    ensures IsTextBytes(TextBytes(s)) && BytesText(TextBytes(s)) == s
  {
  }

  function ParseDigits(s: string, acc: nat): Option<nat> {
    if s == [] then Some(acc)
    else if '0' <= s[0] <= '9' then ParseDigits(s[1..], acc * 10 + (s[0] as int - '0' as int))
    else None
  }

  /** Decimal integers of 64 bits with an optional sign. */
  function ParseInt(s: string): (r: Option<int>)
    ensures r.Some? ==> -TWO_63 <= r.value < TWO_63
  {
    var signed := s != [] && (s[0] == '-' || s[0] == '+');
    var digits := if signed then s[1..] else s;
    if digits == [] then None
    else
      var n: int :- ParseDigits(digits, 0);
      var i := if signed && s[0] == '-' then 0 - n else n;
      if -TWO_63 <= i < TWO_63 then Some(i) else None
  }

  function FitBytes(b: Option<seq<byte>>): (r: Option<Scalar>)
    ensures r.Some? ==> r.value.Bytes? && |r.value.bytes| < TWO_64
  {
    if b.Some? && |b.value| < TWO_64 then Some(Bytes(b.value)) else None
  }

  function ParseScalar(lib: Parsers, s: string, typ: AttributeType): (r: Option<Scalar>)
    ensures r.Some? ==> ScalarHasType(r.value, typ)
  {
    match typ
    case String => if IsText(s) then Some(Bytes(TextBytes(s))) else None
    case Integer => var i :- ParseInt(s); Some(Int64(i))
    case DateTime => FitBytes(lib.date(s))
    case JpegPhoto => FitBytes(lib.photo(s))
  }

  function ParseScalars(lib: Parsers, values: seq<string>, typ: AttributeType): (r: Option<seq<Scalar>>)
    ensures r.Some? ==> |r.value| == |values| && forall i :: 0 <= i < |r.value| ==> ScalarHasType(r.value[i], typ)
  {
    if values == [] then Some([])
    else
      var first :- ParseScalar(lib, values[0], typ);
      var rest :- ParseScalars(lib, values[1..], typ);
      Some([first] + rest)
  }

  /** The typed value that a list of strings stands for; a non-list attribute takes
      exactly one. */
  function ParseValue(lib: Parsers, values: seq<string>, typ: AttributeType, isList: bool): (r: Option<Value>)
    ensures r.Some? ==> HasType(r.value, typ, isList)
  {
    if isList then
      if |values| >= TWO_64 then None
      else
        var ss :- ParseScalars(lib, values, typ);
        Some(Many(ss))
    else if |values| != 1 then None
    else
      var s :- ParseScalar(lib, values[0], typ);
      Some(One(s))
  }

  /** The bytes to store for a list of strings: exactly when they parse, and then bytes
      that decode to what they parse to. */
  function DeserializeAttributeValue(lib: Parsers, values: seq<string>, typ: AttributeType, isList: bool)
    : (r: Option<seq<byte>>)
    ensures r.Some? ==> Decode(r.value, typ, isList) == ParseValue(lib, values, typ, isList)
    ensures r.None? ==> ParseValue(lib, values, typ, isList).None?
    ensures r.Some? ==> exists v :: HasType(v, typ, isList) && r.value == Encode(v, typ, isList)
  {
    var v :- ParseValue(lib, values, typ, isList);
    RoundTrip(v, typ, isList, []);
    assert Encode(v, typ, isList) + [] == Encode(v, typ, isList);
    Some(Encode(v, typ, isList))
  }
}
