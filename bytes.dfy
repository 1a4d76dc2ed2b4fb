/**
 * Python 2 byte strings (`str`, which is also `bytes`) and the `binascii`
 * conversions the module loader applies to public keys.
 */
module Bytes {
  import opened Wrappers

  newtype byte = b: int | 0 <= b < 256

  /** A Python 2 `str`: public keys, content hashes and names are all of this type. */
  type Bytes = seq<byte>

  /** The byte string spelled by an ASCII literal of the source. */
  function Ascii(s: string): (r: Bytes)
    requires forall i | 0 <= i < |s| :: s[i] as int < 128
    ensures |r| == |s|
    ensures forall i | 0 <= i < |s| :: r[i] as int == s[i] as int
  {
    seq(|s|, i requires 0 <= i < |s| => s[i] as int as byte)
  }

  const DOT: byte := 46

  /** Lower-case hexadecimal digit for a nibble, as `hexlify` writes it. */
  function HexDigit(n: int): (d: byte)
    requires 0 <= n < 16
  {
    if n < 10 then (48 + n) as byte else (87 + n) as byte
  }

  /** A digit `hexlify` writes: 0-9 or a-f. */
  predicate IsLowerHexDigit(d: byte) {
    48 <= d < 58 || 97 <= d < 103
  }

  /** A digit `unhexlify` reads: 0-9, a-f or A-F. */
  predicate IsHexDigit(d: byte) {
    48 <= d < 58 || 97 <= d < 103 || 65 <= d < 71
  }

  /** Value of a hexadecimal digit (either case, as `unhexlify` accepts). */
  function DigitValue(d: byte): (n: int)
    requires IsHexDigit(d)
    ensures 0 <= n < 16
  {
    if d < 58 then d as int - 48 else if d < 71 then d as int - 55 else d as int - 87
  }

  /** `binascii.hexlify`: two lower-case hex digits per byte. */
  function Hexlify(b: Bytes): (h: Bytes)
    ensures |h| == 2 * |b|
    ensures forall i | 0 <= i < |h| :: IsLowerHexDigit(h[i]) && h[i] != DOT
  {
    if b == [] then []
    else [HexDigit(b[0] as int / 16), HexDigit(b[0] as int % 16)] + Hexlify(b[1..])
  }

  /** `binascii.unhexlify`: None where Python raises (odd length or a non-hex digit). */
  function Unhexlify(h: Bytes): (r: Option<Bytes>)
    ensures r.Some? ==> 2 * |r.value| == |h|
    decreases |h|
  {
    if h == [] then Some([])
    else if |h| == 1 || !IsHexDigit(h[0]) || !IsHexDigit(h[1]) then None
    else
      match Unhexlify(h[2..])
      case None => None
      case Some(rest) => Some([(DigitValue(h[0]) * 16 + DigitValue(h[1])) as byte] + rest)
  }

  /** `unhexlify` undoes `hexlify`. */
  lemma {:induction false} UnhexlifyHexlify(b: Bytes)
    ensures Unhexlify(Hexlify(b)) == Some(b)
  {
    if b != [] {
      var h := Hexlify(b);
      assert h[2..] == Hexlify(b[1..]);
      UnhexlifyHexlify(b[1..]);
      assert b == [b[0]] + b[1..];
    }
  }

  /** Distinct byte strings have distinct hex forms. */
  lemma HexlifyInjective(a: Bytes, b: Bytes)
    requires Hexlify(a) == Hexlify(b)
    ensures a == b
  {
    UnhexlifyHexlify(a);
    UnhexlifyHexlify(b);
  }
}
