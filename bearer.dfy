/** A model of the bearer-token rule in the HTTP middleware of package
    internal.

    The `Authorization` header is a Go string, that is a sequence of bytes.
    When it is longer than 7 bytes and its first 6 bytes upper-case to
    "BEARER", the token is everything from byte 7 on; otherwise the token is
    the empty string. A missing header reads as the empty string. The byte
    at index 6 (normally a space) is never looked at.
 */
module Server {

  newtype byte = x: int | 0 <= x < 256

  /** "BEARER" in ASCII. */
  const Scheme: seq<byte> := [0x42, 0x45, 0x41, 0x52, 0x45, 0x52]

  /** Upper-cases one ASCII letter; every other byte is kept. */
  function UpperByte(b: byte): (r: byte)
  {
    if 0x61 <= b <= 0x7A then b - 0x20 else b
  }

  /** An upper-case ASCII letter is the upper case of exactly two bytes:
      itself and its lower-case partner. */
  lemma UpperByteMatchesEitherCase(b: byte, letter: byte)
    requires 0x41 <= letter <= 0x5A
    ensures UpperByte(b) == letter <==> b == letter || b == letter + 0x20
  {
  }

  /** Upper-cases every byte of `s` in the ASCII sense. */
  function ToUpper(s: seq<byte>): (r: seq<byte>)
    ensures |r| == |s|
    ensures forall i :: 0 <= i < |s| ==> r[i] == UpperByte(s[i])
  {
    if s == [] then [] else [UpperByte(s[0])] + ToUpper(s[1..])
  }

  /** The token the middleware stores in the request context. */
  function ExtractBearer(header: seq<byte>): (token: seq<byte>)
  {
    if |header| > 7 && ToUpper(header[0..6]) == Scheme then header[7..] else []
  }

  /** Reference definition: the first 6 bytes spell "bearer" with each
      letter in either case. */
  ghost predicate SchemeIgnoringCase(header: seq<byte>)
  {
    |header| >= 6 &&
    forall i :: 0 <= i < 6 ==> header[i] == Scheme[i] || header[i] == Scheme[i] + 0x20
  }

  /** The upper-casing comparison accepts exactly the headers whose first
      6 bytes are "bearer" in any mixture of cases. */
  lemma PrefixMatchIsCaseInsensitive(header: seq<byte>)
    requires |header| >= 6
    ensures ToUpper(header[0..6]) == Scheme <==> SchemeIgnoringCase(header)
  {
    var up := ToUpper(header[0..6]);
    if SchemeIgnoringCase(header) {
      forall i | 0 <= i < 6 ensures up[i] == Scheme[i] {
        UpperByteMatchesEitherCase(header[i], Scheme[i]);
      }
    } else {
      var i :| 0 <= i < 6 && header[i] != Scheme[i] && header[i] != Scheme[i] + 0x20;
      UpperByteMatchesEitherCase(header[i], Scheme[i]);
      assert up[i] != Scheme[i];
    }
  }

  /** A token is extracted exactly when the header is longer than 7 bytes
      and starts with "bearer" in any case; it is then the header from byte
      7 on, so it is non-empty, 7 bytes shorter than the header and a
      suffix of it. */
  lemma ExtractBearerSpec(header: seq<byte>)
    ensures ExtractBearer(header) != [] <==> |header| > 7 && SchemeIgnoringCase(header)
    ensures ExtractBearer(header) != [] ==>
      |ExtractBearer(header)| == |header| - 7 &&
      header == header[..7] + ExtractBearer(header)
  {
    if |header| >= 6 {
      PrefixMatchIsCaseInsensitive(header);
    }
  }

  /** A header of at most 7 bytes, the empty (missing) header included,
      yields no token. */
  lemma ShortHeaderYieldsNoToken(header: seq<byte>)
    requires |header| <= 7
    ensures ExtractBearer(header) == []
  {
  }

  /** When the first 6 bytes are not "bearer" in some case, no token is
      extracted, whatever follows. */
  lemma WrongSchemeYieldsNoToken(header: seq<byte>)
    requires |header| >= 6 && !SchemeIgnoringCase(header)
    ensures ExtractBearer(header) == []
  {
    PrefixMatchIsCaseInsensitive(header);
  }

  /** Byte 6 is never inspected: replacing it does not change the token. */
  lemma SeparatorIsUnchecked(header: seq<byte>, b: byte)
    requires |header| > 6
    ensures ExtractBearer(header[6 := b]) == ExtractBearer(header)
  {
  }

  const BearerSpaceAbc: seq<byte> := [0x42, 0x65, 0x61, 0x72, 0x65, 0x72, 0x20, 0x61, 0x62, 0x63]  // "Bearer abc"
  const BearerXAbc: seq<byte> := [0x42, 0x65, 0x61, 0x72, 0x65, 0x72, 0x58, 0x61, 0x62, 0x63]      // "BearerXabc"
  const Abc: seq<byte> := [0x61, 0x62, 0x63]                                                        // "abc"

  /** "Bearer abc" and "BearerXabc" both yield "abc". */
  lemma SeparatorExample()
    ensures ExtractBearer(BearerSpaceAbc) == Abc
    ensures ExtractBearer(BearerXAbc) == Abc
  {
    PrefixMatchIsCaseInsensitive(BearerSpaceAbc);
    PrefixMatchIsCaseInsensitive(BearerXAbc);
  }
}
