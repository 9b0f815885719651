/** Inbound framing of the TectonicDB protocol: bytes, the 9-byte response
    header (a success byte followed by an 8-byte big-endian unsigned body
    length, Python's struct format '>?Q'), and the request sizes the client's
    read loops issue while a frame is being collected. */
module Wire {

  newtype byte = x: int | 0 <= x < 256

  const HeaderSize: nat := 9
  const LengthWidth: nat := 8
  /** Largest request the body loop issues. */
  const BodyChunk: nat := 32

  function Pow256(k: nat): (p: nat)
    ensures p >= 1
  {
    if k == 0 then 1 else 256 * Pow256(k - 1)
  }

  function Min(a: int, b: int): int { if a <= b then a else b }

  /** The unsigned value of `bs`, most significant byte first. */
  function BigEndian(bs: seq<byte>): (v: nat)
    ensures v < Pow256(|bs|)
  {
    if bs == [] then 0
    else
      var v' := BigEndian(bs[..|bs| - 1]);
      assert v' * 256 <= (Pow256(|bs| - 1) - 1) * 256;
      v' * 256 + bs[|bs| - 1] as int
  }

  lemma DivBound(n: nat, p: nat)
    requires n < 256 * p
    ensures n / 256 < p
  {
  }

  /** The `width` bytes that write `n` most significant byte first. */
  function ToBigEndian(n: nat, width: nat): (bs: seq<byte>)
    requires n < Pow256(width)
    ensures |bs| == width
  {
    if width == 0 then []
    else
      DivBound(n, Pow256(width - 1));
      ToBigEndian(n / 256, width - 1) + [(n % 256) as byte]
  }

  lemma {:induction false} BigEndianOfToBigEndian(n: nat, width: nat)
    requires n < Pow256(width)
    ensures BigEndian(ToBigEndian(n, width)) == n
  {
    if width > 0 {
      DivBound(n, Pow256(width - 1));
      var bs := ToBigEndian(n, width);
      assert bs[..width - 1] == ToBigEndian(n / 256, width - 1);
      BigEndianOfToBigEndian(n / 256, width - 1);
    }
  }

  lemma {:induction false} ToBigEndianOfBigEndian(bs: seq<byte>)
    ensures ToBigEndian(BigEndian(bs), |bs|) == bs
  {
    if bs != [] {
      var pre, last := bs[..|bs| - 1], bs[|bs| - 1];
      var v := BigEndian(bs);
      assert v == BigEndian(pre) * 256 + last as int;
      assert v / 256 == BigEndian(pre) && v % 256 == last as int;
      ToBigEndianOfBigEndian(pre);
      assert bs == pre + [last];
    }
  }

  /** A decoded response header. */
  datatype Header = Header(success: bool, length: nat)

  /** struct.unpack('>?Q', header): any non-zero first byte reads as true. */
  function DecodeHeader(h: seq<byte>): (r: Header)
    requires |h| == HeaderSize
    ensures r.length < Pow256(LengthWidth)
    ensures r.success <==> h[0] != 0
  {
    Header(h[0] != 0, BigEndian(h[1..]))
  }

  /** The decoded flag is set exactly when byte 0 is non-zero, and the decoded
      length is the number whose 8-byte big-endian writing is bytes 1..8. */
  lemma DecodeHeaderLength(h: seq<byte>)
    requires |h| == HeaderSize
    ensures ToBigEndian(DecodeHeader(h).length, LengthWidth) == h[1..]
    ensures DecodeHeader(h).success <==> h[0] != 0
  {
    ToBigEndianOfBigEndian(h[1..]);
  }

  /** The header a conforming server writes: the flag as 0x00/0x01. */
  function EncodeHeader(success: bool, length: nat): (h: seq<byte>)
    requires length < Pow256(LengthWidth)
    ensures |h| == HeaderSize
  {
    [if success then 1 else 0] + ToBigEndian(length, LengthWidth)
  }

  lemma DecodeEncodeHeader(success: bool, length: nat)
    requires length < Pow256(LengthWidth)
    ensures DecodeHeader(EncodeHeader(success, length)) == Header(success, length)
  {
    var h := EncodeHeader(success, length);
    assert h[1..] == ToBigEndian(length, LengthWidth);
    BigEndianOfToBigEndian(length, LengthWidth);
  }

  /** Every header whose flag byte is 0x00 or 0x01 is the encoding of what it decodes to. */
  lemma EncodeDecodeHeader(h: seq<byte>)
    requires |h| == HeaderSize && h[0] <= 1
    ensures var r := DecodeHeader(h); EncodeHeader(r.success, r.length) == h
  {
    ToBigEndianOfBigEndian(h[1..]);
    assert h == [h[0]] + h[1..];
  }

  /** `s` begins with a whole frame: a header and all the body bytes it declares. */
  predicate HasFrame(s: seq<byte>)
  {
    |s| >= HeaderSize && HeaderSize + DecodeHeader(s[..HeaderSize]).length <= |s|
  }

  /** `f` is exactly one frame. */
  predicate IsFrame(f: seq<byte>)
  {
    |f| >= HeaderSize && |f| == HeaderSize + DecodeHeader(f[..HeaderSize]).length
  }

  function BodyLength(f: seq<byte>): nat
    requires |f| >= HeaderSize
  {
    DecodeHeader(f[..HeaderSize]).length
  }

  function FrameSize(s: seq<byte>): (n: nat)
    requires HasFrame(s)
    ensures HeaderSize <= n <= |s|
  {
    HeaderSize + BodyLength(s)
  }

  /** The frame at the head of `s`. */
  function FirstFrame(s: seq<byte>): (f: seq<byte>)
    requires HasFrame(s)
    ensures IsFrame(f) && |f| <= |s| && f == s[..|f|]
  {
    assert s[..FrameSize(s)][..HeaderSize] == s[..HeaderSize];
    s[..FrameSize(s)]
  }

  lemma FirstFrameHeader(s: seq<byte>)
    requires HasFrame(s)
    ensures |FirstFrame(s)| == FrameSize(s) && FirstFrame(s)[..HeaderSize] == s[..HeaderSize]
    ensures BodyLength(FirstFrame(s)) == BodyLength(s)
  {
    assert s[..FrameSize(s)][..HeaderSize] == s[..HeaderSize];
  }

  /** The frame a server writes for a response. */
  function EncodeFrame(success: bool, body: seq<byte>): seq<byte>
    requires |body| < Pow256(LengthWidth)
  {
    EncodeHeader(success, |body|) + body
  }

  /** Whatever follows it, an encoded frame is read back as that frame: its
      header decodes to the flag and the body's length. */
  lemma EncodeFrameRead(success: bool, body: seq<byte>, rest: seq<byte>)
    requires |body| < Pow256(LengthWidth)
    ensures var s := EncodeFrame(success, body) + rest;
      HasFrame(s) && FirstFrame(s) == EncodeFrame(success, body)
      && DecodeHeader(s[..HeaderSize]) == Header(success, |body|)
      && s[HeaderSize..FrameSize(s)] == body
  {
    var s := EncodeFrame(success, body) + rest;
    assert s[..HeaderSize] == EncodeHeader(success, |body|);
    DecodeEncodeHeader(success, |body|);
  }

  /** s is the concatenation of k frames at its head. */
  predicate HasFrames(s: seq<byte>, k: nat)
    decreases k
  {
    k == 0 || (HasFrame(s) && HasFrames(s[FrameSize(s)..], k - 1))
  }

  /** Of k >= 1 frames at the head of `s`, the first is there, and k - 1 follow it. */
  lemma HasFramesNext(s: seq<byte>, k: nat)
    requires k >= 1 && HasFrames(s, k)
    ensures HasFrame(s) && HasFrames(s[FrameSize(s)..], k - 1)
  {
  }

  /** The size of the next recv request the client's read loops issue when
      `held` bytes of a frame whose header declares `length` body bytes have
      arrived; 0 means the frame is complete and nothing more is read. The
      header loop asks for the missing header bytes, the first body read asks
      for one byte, and later body reads ask for what is missing, at most
      BodyChunk bytes. */
  function Want(held: nat, length: nat): (k: nat)
    ensures k == 0 <==> held >= HeaderSize + length
    ensures k <= BodyChunk
    ensures k > 0 ==> held + k <= HeaderSize + length
  {
    if held < HeaderSize then HeaderSize - held
    else if held == HeaderSize then (if length == 0 then 0 else 1)
    else if held - HeaderSize < length then Min(HeaderSize + length - held, BodyChunk)
    else 0
  }

  /** A positive request is for 1 to BodyChunk bytes and comes before the frame is complete. */
  lemma WantRequest(held: nat, length: nat)
    requires Want(held, length) > 0
    ensures 1 <= Want(held, length) <= BodyChunk && held < HeaderSize + length
  {
  }

  /** A later body read asks for what is missing, at most BodyChunk bytes. */
  lemma WantBody(got: nat, length: nat)
    requires 1 <= got < length
    ensures Want(HeaderSize + got, length) == if length - got > BodyChunk then BodyChunk else length - got
  {
  }
}
