/** The byte-level view of Go strings used throughout the model.

A Go `string` is a sequence of bytes and `len` counts bytes, so a chirp body
is modelled as a sequence of byte-valued characters. Lower-casing is the
ASCII part of `strings.ToLower`.
 */
module Text {

  /** One byte of a Go string. */
  type Byte = c: char | c as int < 256 witness ' '

  /** A Go string: `len(s)` is `|s|`. */
  type Bytes = seq<Byte>

  /** The separator the chirp cleaner splits on and joins with. */
  const Space: Byte := ' '

  predicate IsAsciiUpper(b: Byte) {
    'A' <= b <= 'Z'
  }

  /** Lower-cases one ASCII capital letter; every other byte is left alone. */
  function LowerByte(b: Byte): (r: Byte)
    ensures !IsAsciiUpper(r)
    ensures r == b <==> !IsAsciiUpper(b)
    ensures IsAsciiUpper(b) ==> 'a' <= r <= 'z' && r as int - 'a' as int == b as int - 'A' as int
  {
    if IsAsciiUpper(b) then (b as int + 32) as char else b
  }

  /** Byte-wise lower-casing: it never changes the length of a string. */
  function ToLower(s: Bytes): (r: Bytes)
    ensures |r| == |s|
    ensures forall i :: 0 <= i < |s| ==> r[i] == LowerByte(s[i])
  {
    seq(|s|, i requires 0 <= i < |s| => LowerByte(s[i]))
  }

  /** Lower-casing a concatenation lower-cases each part. */
  lemma ToLowerAppend(a: Bytes, b: Bytes)
    ensures ToLower(a + b) == ToLower(a) + ToLower(b)
  {
    assert forall i :: 0 <= i < |a + b| ==> ToLower(a + b)[i] == (ToLower(a) + ToLower(b))[i];
  }

  /** Lower-casing twice is the same as lower-casing once. */
  lemma ToLowerIdempotent(s: Bytes)
    ensures ToLower(ToLower(s)) == ToLower(s)
  {
  }
}
