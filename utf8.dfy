/**
 * UTF-8 as Rust's `str::from_utf8` checks and decodes it: the well-formed
 * byte sequences of table 3-7 of the Unicode Standard (no overlong forms,
 * no surrogates, nothing above U+10FFFF), and `valid_up_to`, the length of
 * the longest well-formed prefix, when the bytes are not UTF-8.
 */
module Utf8 {
  import opened Bytes
  import opened Results

  /** A Unicode scalar value: what a Rust `char` (and a Dafny `char`) holds. */
  predicate IsScalar(v: int)
  {
    0 <= v < 0xD800 || 0xE000 <= v < 0x11_0000
  }

  predicate IsContinuation(b: Byte)
  {
    0x80 <= b <= 0xBF
  }

  /**
   * Length of the well-formed sequence that starts `b`, or 0 when `b` does not
   * start with one (an invalid lead byte, a bad or missing continuation byte).
   */
  function SequenceLength(b: seq<Byte>): (n: nat)
    ensures n <= 4 && n <= |b|
    ensures n == 1 <==> b != [] && b[0] <= 0x7F
  {
    if b == [] then 0
    else if b[0] <= 0x7F then 1
    else if 0xC2 <= b[0] <= 0xDF then
      if |b| >= 2 && IsContinuation(b[1]) then 2 else 0
    else if 0xE0 <= b[0] <= 0xEF then
      var lo: Byte := if b[0] == 0xE0 then 0xA0 else 0x80;
      var hi: Byte := if b[0] == 0xED then 0x9F else 0xBF;
      if |b| >= 3 && lo <= b[1] <= hi && IsContinuation(b[2]) then 3 else 0
    else if 0xF0 <= b[0] <= 0xF4 then
      var lo: Byte := if b[0] == 0xF0 then 0x90 else 0x80;
      var hi: Byte := if b[0] == 0xF4 then 0x8F else 0xBF;
      if |b| >= 4 && lo <= b[1] <= hi && IsContinuation(b[2]) && IsContinuation(b[3]) then 4 else 0
    else 0
  }

  /** The scalar value that the well-formed sequence starting `b` encodes. */
  function ScalarValue(b: seq<Byte>): (v: int)
    requires SequenceLength(b) > 0
    ensures IsScalar(v)
  {
    var n := SequenceLength(b);
    if n == 1 then b[0] as int
    else if n == 2 then (b[0] as int - 0xC0) * 0x40 + (b[1] as int - 0x80)
    else if n == 3 then (b[0] as int - 0xE0) * 0x1000 + (b[1] as int - 0x80) * 0x40 + (b[2] as int - 0x80)
    else (b[0] as int - 0xF0) * 0x4_0000 + (b[1] as int - 0x80) * 0x1000 + (b[2] as int - 0x80) * 0x40 + (b[3] as int - 0x80)
  }

  /** The UTF-8 encoding of one scalar value. */
  function EncodeScalar(v: int): (b: seq<Byte>)
    requires IsScalar(v)
  {
    if v < 0x80 then [v as Byte]
    else if v < 0x800 then [(0xC0 + v / 0x40) as Byte, (0x80 + v % 0x40) as Byte]
    else if v < 0x1_0000 then
      [(0xE0 + v / 0x1000) as Byte, (0x80 + (v / 0x40) % 0x40) as Byte, (0x80 + v % 0x40) as Byte]
    else
      [(0xF0 + v / 0x4_0000) as Byte, (0x80 + (v / 0x1000) % 0x40) as Byte,
       (0x80 + (v / 0x40) % 0x40) as Byte, (0x80 + v % 0x40) as Byte]
  }

  /** The UTF-8 bytes of a string (`str::as_bytes`). */
  function Encode(s: string): seq<Byte>
  {
    if s == [] then [] else EncodeScalar(s[0] as int) + Encode(s[1..])
  }

  /** `b` is entirely UTF-8. */
  predicate WellFormed(b: seq<Byte>)
    decreases |b|
  {
    b == [] || (SequenceLength(b) > 0 && WellFormed(b[SequenceLength(b)..]))
  }

  /**
   * `str::from_utf8`: the decoded string, or `valid_up_to`, the offset at which
   * the first ill-formed sequence starts.
   */
  function Decode(b: seq<Byte>): (r: Result<string, nat>)
    decreases |b|
    ensures r.Ok? <==> WellFormed(b)
    ensures r.Ok? ==> Encode(r.value) == b
    ensures r.Err? ==> r.error < |b| && WellFormed(b[..r.error]) && SequenceLength(b[r.error..]) == 0
  {
    if b == [] then Ok([])
    else
      var n := SequenceLength(b);
      if n == 0 then
        assert b[..0] == [] && b[0..] == b;
        Err(0)
      else
        match Decode(b[n..])
        case Ok(s) =>
          WellFormedStep(b);
          DecodeStepOk(b, s);
          Ok([ScalarValue(b) as char] + s)
        case Err(k) =>
          WellFormedStep(b);
          DecodeStepErr(b, k);
          Err(n + k)
  }

  /** A sequence that starts with a whole scalar is well formed exactly when the rest is. */
  lemma WellFormedStep(b: seq<Byte>)
    requires SequenceLength(b) > 0
    ensures WellFormed(b) <==> WellFormed(b[SequenceLength(b)..])
  {
  }

  lemma DecodeStepOk(b: seq<Byte>, s: string)
    requires SequenceLength(b) > 0 && Encode(s) == b[SequenceLength(b)..]
    ensures Encode([ScalarValue(b) as char] + s) == b
  {
    var n := SequenceLength(b);
    ScalarRoundTrip(b);
    assert ([ScalarValue(b) as char] + s)[1..] == s;
    assert b == b[..n] + b[n..];
  }

  lemma DecodeStepErr(b: seq<Byte>, k: nat)
    requires SequenceLength(b) > 0
    requires k < |b[SequenceLength(b)..]| && WellFormed(b[SequenceLength(b)..][..k])
    requires SequenceLength(b[SequenceLength(b)..][k..]) == 0
    ensures WellFormed(b[..SequenceLength(b) + k]) && SequenceLength(b[SequenceLength(b) + k..]) == 0
  {
    var n := SequenceLength(b);
    var p := b[..n + k];
    SequenceLengthOfPrefix(b, n + k);
    assert p[n..] == b[n..][..k];
    assert b[n + k..] == b[n..][k..];
  }

  /** The sequence length only looks at the sequence's own bytes. */
  lemma SequenceLengthOfPrefix(b: seq<Byte>, m: nat)
    requires 0 < SequenceLength(b) <= m <= |b|
    ensures SequenceLength(b[..m]) == SequenceLength(b)
  {
    var n := SequenceLength(b);
    assert forall i :: 0 <= i < n ==> b[..m][i] == b[i];
  }

  /** Encoding the scalar value of a well-formed sequence gives back its bytes. */
  lemma ScalarRoundTrip(b: seq<Byte>)
    requires SequenceLength(b) > 0
    ensures EncodeScalar(ScalarValue(b)) == b[..SequenceLength(b)]
  {
    var n := SequenceLength(b);
    if n == 2 {
      RoundTripTwo(b);
    } else if n == 3 {
      RoundTripThree(b);
    } else if n == 4 {
      RoundTripFour(b);
    }
  }

  lemma RoundTripTwo(b: seq<Byte>)
    requires SequenceLength(b) == 2
    ensures EncodeScalar(ScalarValue(b)) == b[..2]
  {
    EncodeTwo(b[0] as int - 0xC0, b[1] as int - 0x80);
    assert b[..2] == [b[0], b[1]];
  }

  lemma RoundTripThree(b: seq<Byte>)
    requires SequenceLength(b) == 3
    ensures EncodeScalar(ScalarValue(b)) == b[..3]
  {
    EncodeThree(b[0] as int - 0xE0, b[1] as int - 0x80, b[2] as int - 0x80);
    assert b[..3] == [b[0], b[1], b[2]];
  }

  lemma RoundTripFour(b: seq<Byte>)
    requires SequenceLength(b) == 4
    ensures EncodeScalar(ScalarValue(b)) == b[..4]
  {
    EncodeFour(b[0] as int - 0xF0, b[1] as int - 0x80, b[2] as int - 0x80, b[3] as int - 0x80);
    assert b[..4] == [b[0], b[1], b[2], b[3]];
  }

  lemma EncodeTwo(x: int, y: int)
    requires 2 <= x < 0x20 && 0 <= y < 0x40
    ensures IsScalar(x * 0x40 + y)
    ensures EncodeScalar(x * 0x40 + y) == [(0xC0 + x) as Byte, (0x80 + y) as Byte]
    ensures SequenceLength([(0xC0 + x) as Byte, (0x80 + y) as Byte]) == 2
    ensures ScalarValue([(0xC0 + x) as Byte, (0x80 + y) as Byte]) == x * 0x40 + y
  {
    var v := x * 0x40 + y;
    assert v / 0x40 == x && v % 0x40 == y;
  }

  lemma EncodeThree(x: int, y: int, z: int)
    requires 0 <= x < 0x10 && 0 <= y < 0x40 && 0 <= z < 0x40
    requires x == 0 ==> y >= 0x20
    requires x == 0xD ==> y < 0x20
    ensures IsScalar(x * 0x1000 + y * 0x40 + z)
    ensures EncodeScalar(x * 0x1000 + y * 0x40 + z) == [(0xE0 + x) as Byte, (0x80 + y) as Byte, (0x80 + z) as Byte]
    ensures SequenceLength([(0xE0 + x) as Byte, (0x80 + y) as Byte, (0x80 + z) as Byte]) == 3
    ensures ScalarValue([(0xE0 + x) as Byte, (0x80 + y) as Byte, (0x80 + z) as Byte]) == x * 0x1000 + y * 0x40 + z
  {
    var v := x * 0x1000 + y * 0x40 + z;
    var u := x * 0x40 + y;
    assert v == u * 0x40 + z;
    assert v / 0x40 == u && v % 0x40 == z;
    assert u / 0x40 == x && u % 0x40 == y;
    assert v / 0x1000 == x;
  }

  lemma EncodeFour(w: int, x: int, y: int, z: int)
    requires 0 <= w <= 4 && 0 <= x < 0x40 && 0 <= y < 0x40 && 0 <= z < 0x40
    requires w == 0 ==> x >= 0x10
    requires w == 4 ==> x < 0x10
    ensures IsScalar(w * 0x4_0000 + x * 0x1000 + y * 0x40 + z)
    ensures EncodeScalar(w * 0x4_0000 + x * 0x1000 + y * 0x40 + z)
      == [(0xF0 + w) as Byte, (0x80 + x) as Byte, (0x80 + y) as Byte, (0x80 + z) as Byte]
    ensures SequenceLength([(0xF0 + w) as Byte, (0x80 + x) as Byte, (0x80 + y) as Byte, (0x80 + z) as Byte]) == 4
    ensures ScalarValue([(0xF0 + w) as Byte, (0x80 + x) as Byte, (0x80 + y) as Byte, (0x80 + z) as Byte])
      == w * 0x4_0000 + x * 0x1000 + y * 0x40 + z
  {
    var v := w * 0x4_0000 + x * 0x1000 + y * 0x40 + z;
    var t := w * 0x40 + x;
    var u := t * 0x40 + y;
    assert v == u * 0x40 + z;
    assert v / 0x40 == u && v % 0x40 == z;
    assert u / 0x40 == t && u % 0x40 == y;
    assert t / 0x40 == w && t % 0x40 == x;
    assert v / 0x1000 == t;
    assert v / 0x4_0000 == w;
  }

  /** The encoding of a scalar is one well-formed sequence that decodes to it. */
  lemma EncodeScalarDecodes(v: int, rest: seq<Byte>)
    requires IsScalar(v)
    ensures SequenceLength(EncodeScalar(v) + rest) == |EncodeScalar(v)|
    ensures ScalarValue(EncodeScalar(v) + rest) == v
  {
    var e := EncodeScalar(v);
    EncodeScalarWellFormed(v);
    var n := |e|;
    assert forall i :: 0 <= i < n ==> (e + rest)[i] == e[i];
    SequenceLengthOfPrefix(e + rest, n);
    assert (e + rest)[..n] == e;
  }

  lemma EncodeScalarWellFormed(v: int)
    requires IsScalar(v)
    ensures SequenceLength(EncodeScalar(v)) == |EncodeScalar(v)|
    ensures ScalarValue(EncodeScalar(v)) == v
  {
    if 0x80 <= v < 0x800 {
      EncodeTwoBytes(v);
    } else if 0x800 <= v < 0x1_0000 {
      EncodeThreeBytes(v);
    } else if 0x1_0000 <= v {
      EncodeFourBytes(v);
    }
  }

  lemma EncodeTwoBytes(v: int)
    requires 0x80 <= v < 0x800
    ensures SequenceLength(EncodeScalar(v)) == 2 && ScalarValue(EncodeScalar(v)) == v
  {
    var x, y := v / 0x40, v % 0x40;
    assert v == x * 0x40 + y;
    EncodeTwo(x, y);
  }

  lemma EncodeThreeBytes(v: int)
    requires 0x800 <= v < 0x1_0000 && IsScalar(v)
    ensures SequenceLength(EncodeScalar(v)) == 3 && ScalarValue(EncodeScalar(v)) == v
  {
    var u, z := v / 0x40, v % 0x40;
    var x, y := u / 0x40, u % 0x40;
    assert v == u * 0x40 + z;
    assert u == x * 0x40 + y;
    assert v / 0x1000 == x;
    EncodeThree(x, y, z);
  }

  lemma EncodeFourBytes(v: int)
    requires 0x1_0000 <= v < 0x11_0000
    ensures SequenceLength(EncodeScalar(v)) == 4 && ScalarValue(EncodeScalar(v)) == v
  {
    var u, z := v / 0x40, v % 0x40;
    var t, y := u / 0x40, u % 0x40;
    var w, x := t / 0x40, t % 0x40;
    assert v == u * 0x40 + z;
    assert u == t * 0x40 + y;
    assert t == w * 0x40 + x;
    assert v / 0x1000 == t;
    assert v / 0x4_0000 == w;
    EncodeFour(w, x, y, z);
  }

  /** Decoding the UTF-8 bytes of any string gives the string back. */
  lemma {:induction false} DecodeEncode(s: string)
    ensures Decode(Encode(s)) == Ok(s)
  {
    if s != [] {
      var e := EncodeScalar(s[0] as int);
      var b := Encode(s);
      EncodeScalarDecodes(s[0] as int, Encode(s[1..]));
      assert b[|e|..] == Encode(s[1..]);
      DecodeEncode(s[1..]);
      assert (ScalarValue(b) as char) == s[0];
      assert [s[0]] + s[1..] == s;
    }
  }

  /** Different strings have different UTF-8 bytes. */
  lemma EncodeInjective(s: string, t: string)
    requires Encode(s) == Encode(t)
    ensures s == t
  {
    DecodeEncode(s);
    DecodeEncode(t);
  }
}
