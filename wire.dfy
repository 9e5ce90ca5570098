/** The connection: one ordered stream of text lines and raw bytes, the
    8-byte length prefix written by `DataOutputStream.writeLong` and read by
    `DataInputStream.readLong`, and the rule of the bounded receive loops. */
module Wire {

  /** An octet on the connection or in a file. */
  type Byte = b: int | 0 <= b < 256

  const LONG_MIN: int := -0x8000_0000_0000_0000
  const LONG_MAX: int := 0x7FFF_FFFF_FFFF_FFFF
  const TWO_64: int := 0x1_0000_0000_0000_0000

  /** The content of a file: Java reports a file's length as a `long`. */
  type Content = c: seq<Byte> | |c| <= LONG_MAX

  /** What one side has yet to read from the connection; no stream carries
      more units than a `long` counts. */
  type Stream = s: seq<Token> | |s| <= LONG_MAX

  /** True iff v fits in a Java `long`. */
  predicate IsLong(v: int) {
    LONG_MIN <= v <= LONG_MAX
  }

  function Pow256(k: nat): (p: nat)
    ensures p > 0
  {
    if k == 0 then 1 else 256 * Pow256(k - 1)
  }

  /** The unsigned number a big-endian byte sequence denotes: the first byte
      is the most significant one. */
  function Unsigned(b: seq<Byte>): (n: nat)
    ensures n < Pow256(|b|)
  {
    if b == [] then 0 else Unsigned(b[..|b| - 1]) * 256 + b[|b| - 1]
  }

  /** The k low-order bytes of n, most significant first. */
  function BigEndian(n: nat, k: nat): (b: seq<Byte>)
    ensures |b| == k
  {
    if k == 0 then [] else BigEndian(n / 256, k - 1) + [n % 256]
  }

  lemma {:induction false} UnsignedOfBigEndian(n: nat, k: nat)
    requires n < Pow256(k)
    ensures Unsigned(BigEndian(n, k)) == n
  {
    if k > 0 {
      var b := BigEndian(n, k);
      var q, r := n / 256, n % 256;
      assert b[..k - 1] == BigEndian(q, k - 1) && b[k - 1] == r;
      DivBelow(n, Pow256(k - 1));
      UnsignedOfBigEndian(q, k - 1);
      assert Unsigned(b) == Unsigned(b[..k - 1]) * 256 + b[k - 1];
      Recompose(Unsigned(b[..k - 1]), n);
    }
  }

  lemma Recompose(u: int, n: nat)
    requires u == n / 256
    ensures u * 256 + n % 256 == n
  {
  }

  lemma DivBelow(n: nat, p: nat)
    requires n < 256 * p
    ensures n / 256 < p
  {
  }

  lemma {:induction false} BigEndianOfUnsigned(b: seq<Byte>)
    ensures BigEndian(Unsigned(b), |b|) == b
  {
    if b != [] {
      var front := b[..|b| - 1];
      var n := Unsigned(b);
      assert n / 256 == Unsigned(front) && n % 256 == b[|b| - 1];
      BigEndianOfUnsigned(front);
    }
  }

  /** `writeLong(v)`: the eight bytes of v's 64-bit two's complement,
      high byte first. */
  function Encode64(v: int): (b: seq<Byte>)
    requires IsLong(v)
    ensures |b| == 8
    ensures Unsigned(b) == if v < 0 then v + TWO_64 else v
  {
    var u := if v < 0 then v + TWO_64 else v;
    UnsignedOfBigEndian(u, 8);
    BigEndian(u, 8)
  }

  /** `readLong()` applied to eight bytes. */
  function Decode64(b: seq<Byte>): (v: int)
    requires |b| == 8
    ensures IsLong(v)
    ensures Unsigned(b) == if v < 0 then v + TWO_64 else v
  {
    var u := Unsigned(b);
    if u > LONG_MAX then u - TWO_64 else u
  }

  lemma DecodeEncode64(v: int)
    requires IsLong(v)
    ensures Decode64(Encode64(v)) == v
  {
  }

  lemma EncodeDecode64(b: seq<Byte>)
    requires |b| == 8
    ensures Encode64(Decode64(b)) == b
  {
    BigEndianOfUnsigned(b);
  }

  /** The "not found" answer of a download, -1, is eight 0xFF bytes. */
  lemma EncodeMinusOne()
    ensures Encode64(-1) == [255, 255, 255, 255, 255, 255, 255, 255]
  {
    AllOnes(8);
  }

  lemma {:induction false} AllOnes(k: nat)
    ensures BigEndian(Pow256(k) - 1, k) == seq(k, _ => 255)
  {
    if k > 0 {
      var n := Pow256(k) - 1;
      assert n == 256 * (Pow256(k - 1) - 1) + 255;
      assert n / 256 == Pow256(k - 1) - 1 && n % 256 == 255;
      AllOnes(k - 1);
    }
  }

  /** One unit of the connection. `Fault` stands for the transport failing at
      that point (a reset connection): every read that reaches it throws an
      `IOException`, and it stays where it is. */
  datatype Token = Line(text: string) | Raw(b: Byte) | Fault

  /** The tokens that carry the given bytes. */
  function Raws(bytes: seq<Byte>): (s: seq<Token>)
  {
    seq(|bytes|, i requires 0 <= i < |bytes| => Raw(bytes[i]))
  }

  /** Concatenation regrouped. */
  lemma Regroup<T>(a: seq<T>, b: seq<T>, c: seq<T>)
    ensures a + (b + c) == a + b + c
  {
  }

  lemma DropHead<T>(x: T, a: seq<T>)
    ensures ([x] + a)[1..] == a
  {
  }

  lemma RawsAppend(a: seq<Byte>, b: seq<Byte>)
    ensures Raws(a + b) == Raws(a) + Raws(b)
  {
  }

  /** The number of bytes available to a binary read: the length of the
      leading run of `Raw` tokens. */
  function RunLength(s: seq<Token>): (n: nat)
    ensures n <= |s|
    ensures forall i :: 0 <= i < n ==> s[i].Raw?
    ensures n < |s| ==> !s[n].Raw?
  {
    if s == [] || !s[0].Raw? then 0 else 1 + RunLength(s[1..])
  }

  /** The bytes of the first k tokens, which must all be raw. */
  function Payload(s: seq<Token>, k: nat): (bytes: seq<Byte>)
    requires k <= RunLength(s)
    ensures |bytes| == k
    ensures Raws(bytes) == s[..k]
  {
    seq(k, i requires 0 <= i < k => s[i].b)
  }

  lemma {:induction false} RunOfRaws(bytes: seq<Byte>, rest: seq<Token>)
    ensures RunLength(Raws(bytes) + rest) == |bytes| + RunLength(rest)
    ensures Payload(Raws(bytes) + rest, |bytes|) == bytes
  {
    if bytes != [] {
      assert (Raws(bytes) + rest)[1..] == Raws(bytes[1..]) + rest;
      RunOfRaws(bytes[1..], rest);
    } else {
      assert Raws(bytes) + rest == rest;
    }
  }

  lemma {:induction false} RunAfter(s: seq<Token>, k: nat)
    requires k <= RunLength(s)
    ensures RunLength(s[k..]) == RunLength(s) - k
  {
    if k > 0 {
      assert s[k..] == s[1..][k - 1..];
      RunAfter(s[1..], k - 1);
    }
  }

  lemma PayloadSplit(s: seq<Token>, j: nat, k: nat)
    requires j <= k <= RunLength(s)
    ensures RunLength(s[j..]) == RunLength(s) - j
    ensures Payload(s, j) + Payload(s[j..], k - j) == Payload(s, k)
  {
    RunAfter(s, j);
  }

  /** How many of the `available` bytes one `read(buffer)` returns: some
      non-empty part, as the transport or the file system decides. */
  method ChunkSize(available: nat) returns (n: nat)
    requires available > 0
    ensures 1 <= n <= available
  {
    n :| 1 <= n <= available;
  }

  /** The outcome of `BufferedReader.readLine()`. */
  datatype LineRead = GotLine(text: string) | EndOfStream | ReadFault

  /** `readLine()`: the next line, `null` at the end of the stream, an
      `IOException` at a fault. */
  function ReadLine(s: seq<Token>): (r: LineRead)
    ensures r.GotLine? <==> s != [] && s[0].Line?
    ensures r.GotLine? ==> s[0] == Line(r.text)
    ensures r == EndOfStream <==> s == []
  {
    if s == [] then EndOfStream
    else if s[0].Line? then GotLine(s[0].text)
    else ReadFault
  }

  /** The outcome of `DataInputStream.readLong()`, with what remains of the
      stream. */
  datatype LongRead = GotLong(value: int, rest: seq<Token>) | LongFailed(rest: seq<Token>)

  /** `readLong()`: eight bytes decoded, or an `IOException` (an
      `EOFException` at the end of the stream) after taking the bytes that
      were there. */
  function ReadLong(s: seq<Token>): (r: LongRead)
    ensures r.GotLong? <==> RunLength(s) >= 8
    ensures |r.rest| <= |s|
    ensures r.GotLong? ==> IsLong(r.value) && s == Raws(Encode64(r.value)) + r.rest
    ensures r.LongFailed? ==> r.rest == s[RunLength(s)..]
  {
    if RunLength(s) >= 8 then
      var b := Payload(s, 8);
      EncodeDecode64(b);
      assert s == s[..8] + s[8..];
      GotLong(Decode64(b), s[8..])
    else
      LongFailed(s[RunLength(s)..])
  }

  /** `writeLong(v)` followed by `readLong()` returns v and leaves what
      followed. */
  lemma ReadLongOfEncode64(v: int, rest: seq<Token>)
    requires IsLong(v)
    ensures ReadLong(Raws(Encode64(v)) + rest) == GotLong(v, rest)
  {
    var s := Raws(Encode64(v)) + rest;
    RunOfRaws(Encode64(v), rest);
    DecodeEncode64(v);
    assert s[8..] == rest;
  }

  /** How many payload bytes a loop of the shape
        `while (got < size && (n = read(buf)) != -1) { ...; got += n; }`
      can take from s, when every `read` returns some non-empty part of the
      bytes available: all of them when fewer than `size` are there;
      none when `size` is not positive; otherwise at least `size` (the last
      read may take more than was declared) and at most what is there. */
  predicate ReceivableCount(size: int, s: seq<Token>, k: nat) {
    var r := RunLength(s);
    if r < size then k == r
    else if size <= 0 then k == 0
    else size <= k <= r
  }

  /** The loop ended on an exception: it still wanted bytes and the next
      read met a fault (or a text line) rather than the end of the stream. */
  predicate ReceiveBroken(size: int, s: seq<Token>, k: nat)
    requires k <= |s|
  {
    k < size && s[k..] != []
  }

  lemma ReceivableCountBounds(size: int, s: seq<Token>, k: nat)
    requires ReceivableCount(size, s, k)
    ensures k <= RunLength(s)
    ensures k < size ==> k == RunLength(s)
    ensures ReceiveBroken(size, s, k) ==> !s[k].Raw?
  {
  }

  /** Exactly `size` bytes followed by anything but more bytes: the loop
      takes exactly those bytes, and cannot break. */
  lemma ExactCount(size: nat, bytes: seq<Byte>, rest: seq<Token>, k: nat)
    requires |bytes| == size
    requires rest == [] || !rest[0].Raw?
    ensures ReceivableCount(size, Raws(bytes) + rest, k) <==> k == size
    ensures !ReceiveBroken(size, Raws(bytes) + rest, size)
    ensures Payload(Raws(bytes) + rest, size) == bytes
  {
    RunOfRaws(bytes, rest);
    assert RunLength(rest) == 0;
  }
}
