/** The digest encoding of `calculateHash`: the 32 bytes of a SHA-256 digest
    written as 64 lowercase hexadecimal characters. The SHA-256 function itself
    is a foreign library call and is a parameter of the model. */
module Hex {

  newtype uint8 = x: int | 0 <= x < 256

  /** SHA256_DIGEST_LENGTH */
  const DigestLength: nat := 32

  /** The bytes a SHA-256 computation produces. */
  type Digest = s: seq<uint8> | |s| == DigestLength witness seq(32, _ => 0 as uint8)

  /** The lowercase hexadecimal digit of a value below 16, as "%x" prints it. */
  function HexDigit(n: int): (c: char)
    requires 0 <= n < 16
  {
    if n < 10 then ('0' as int + n) as char else ('a' as int + n - 10) as char
  }

  predicate IsHexDigit(c: char) {
    '0' <= c <= '9' || 'a' <= c <= 'f'
  }

  /** The value of a lowercase hexadecimal digit (0 for any other character). */
  function HexValue(c: char): (v: int)
    ensures 0 <= v < 16
    ensures IsHexDigit(c) ==> HexDigit(v) == c
  {
    if '0' <= c <= '9' then c as int - '0' as int
    else if 'a' <= c <= 'f' then c as int - 'a' as int + 10
    else 0
  }

  /** Two "%02x" digits per byte, high nibble first: character i is a digit
      of byte i / 2, the high nibble when i is even and the low one when odd. */
  function HexOf(bytes: seq<uint8>): (s: string)
    ensures |s| == 2 * |bytes|
  {
    seq(2 * |bytes|, i requires 0 <= i < 2 * |bytes| =>
      HexDigit(if i % 2 == 0 then bytes[i / 2] as int / 16 else bytes[i / 2] as int % 16))
  }

  /** Reads a hexadecimal string back as bytes, two digits per byte. */
  function UnHex(s: string): seq<uint8>
    decreases |s|
  {
    if |s| < 2 then []
    else [(16 * HexValue(s[0]) + HexValue(s[1])) as uint8] + UnHex(s[2..])
  }

  /** Characters 2i and 2i+1 of the encoding are the digits of byte i. */
  lemma HexOfAt(bytes: seq<uint8>, i: nat)
    requires i < |bytes|
    ensures HexOf(bytes)[2 * i] == HexDigit(bytes[i] as int / 16)
    ensures HexOf(bytes)[2 * i + 1] == HexDigit(bytes[i] as int % 16)
  {
    assert (2 * i) % 2 == 0 && (2 * i) / 2 == i;
    assert (2 * i + 1) % 2 == 1 && (2 * i + 1) / 2 == i;
  }

  /** The encoding of the bytes after the first is the encoding after its
      first two characters. */
  lemma HexOfTail(bytes: seq<uint8>)
    requires |bytes| >= 1
    ensures HexOf(bytes)[2..] == HexOf(bytes[1..])
  {
    var s, t := HexOf(bytes)[2..], HexOf(bytes[1..]);
    forall k | 0 <= k < |t| ensures s[k] == t[k] {
      assert (k + 2) / 2 == k / 2 + 1 && (k + 2) % 2 == k % 2;
    }
  }

  /** Every character of the encoding is a lowercase hexadecimal digit. */
  lemma HexOfIsLowerHex(bytes: seq<uint8>)
    ensures forall k :: 0 <= k < |HexOf(bytes)| ==> IsHexDigit(HexOf(bytes)[k])
  {
  }

  /** Decoding undoes the encoding, so the encoding loses nothing. */
  lemma {:induction false} HexRoundTrip(bytes: seq<uint8>)
    ensures UnHex(HexOf(bytes)) == bytes
  {
    if bytes != [] {
      var s := HexOf(bytes);
      var b := bytes[0] as int;
      HexOfAt(bytes, 0);
      assert HexValue(s[0]) == b / 16 && HexValue(s[1]) == b % 16;
      HexOfTail(bytes);
      HexRoundTrip(bytes[1..]);
    }
  }

  lemma HexOfInjective(a: seq<uint8>, b: seq<uint8>)
    requires HexOf(a) == HexOf(b)
    ensures a == b
  {
    HexRoundTrip(a);
    HexRoundTrip(b);
  }

  /** What `std::string(hashString)` reads: the characters before the first NUL. */
  function UpToNul(buf: seq<char>): (s: seq<char>)
    ensures |s| <= |buf| && s == buf[..|s|]
    ensures forall k :: 0 <= k < |s| ==> s[k] != '\0'
    ensures |s| < |buf| ==> buf[|s|] == '\0'
  {
    if buf == [] || buf[0] == '\0' then []
    else
      var rest := UpToNul(buf[1..]);
      assert [buf[0]] + rest == buf[..|rest| + 1];
      [buf[0]] + rest
  }

  lemma {:induction false} UpToNulAt(buf: seq<char>, k: nat)
    requires k < |buf| && buf[k] == '\0'
    requires forall j :: 0 <= j < k ==> buf[j] != '\0'
    ensures UpToNul(buf) == buf[..k]
  {
    if k > 0 {
      UpToNulAt(buf[1..], k - 1);
    }
  }

  /** The hex loop of `calculateHash`: each iteration prints one byte with
      "%02x" at offset 2i, and `sprintf` writes a terminating NUL after it. */
  method HexEncode(hash: Digest) returns (s: string)
    ensures s == HexOf(hash)
  {
    var hashString := new char[DigestLength * 2 + 1];
    for i := 0 to DigestLength
      invariant forall k :: 0 <= k < 2 * i ==> hashString[k] == HexOf(hash)[k]
      invariant i > 0 ==> hashString[2 * i] == '\0'
    {
      HexOfAt(hash, i);
      hashString[2 * i] := HexDigit(hash[i] as int / 16);
      hashString[2 * i + 1] := HexDigit(hash[i] as int % 16);
      hashString[2 * i + 2] := '\0';
    }
    HexOfIsLowerHex(hash);
    UpToNulAt(hashString[..], 2 * DigestLength);
    s := UpToNul(hashString[..]);
  }

  /** `calculateHash(str)`: SHA-256 of the string, as lowercase hexadecimal. */
  function Hash(sha256: string -> Digest, str: string): (r: string)
    ensures |r| == 2 * DigestLength
    ensures forall k :: 0 <= k < |r| ==> IsHexDigit(r[k])
  {
    HexOfIsLowerHex(sha256(str));
    HexOf(sha256(str))
  }

  /** No two distinct strings of S share a digest. (No function from all
      strings to 32-byte digests is collision-free everywhere, so the
      assumption is made only for the finitely many strings a computation
      hashes.) */
  ghost predicate CollisionFree(sha256: string -> Digest, S: set<string>) {
    forall x, y :: x in S && y in S && sha256(x) == sha256(y) ==> x == y
  }

  lemma CollisionFreeSubset(sha256: string -> Digest, S: set<string>, T: set<string>)
    requires CollisionFree(sha256, S) && T <= S
    ensures CollisionFree(sha256, T)
  {
  }

  /** Without a SHA-256 collision between x and y, equal hex digests come
      from equal strings. */
  lemma HashInjective(sha256: string -> Digest, x: string, y: string)
    requires CollisionFree(sha256, {x, y})
    requires Hash(sha256, x) == Hash(sha256, y)
    ensures x == y
  {
    HexOfInjective(sha256(x), sha256(y));
  }
}
