/** `DefaultSteganoGrapher`: hides a message in the least significant bit of the red
    channel of an RGBA image, behind a length header stored in pixel (0, 0).

    Pixels are visited column by column (see `Image.Scan`). The pixel at scan position 0
    holds the message length in base 255, and the pixel at scan position d + 1 carries
    message bit d: bit d % 8 of byte d / 8, counting from the least significant bit. */
module Steganography {
  import opened Bytes
  import opened Utf8
  import opened Image

  /** The number of lengths the four base-255 header digits can represent: 255^4. */
  const HEADER_RANGE: nat := 255 * 255 * 255 * 255

  function Min(a: int, b: int): int
  {
    if a <= b then a else b
  }

  // ---------------------------------------------------------------------------
  // The length header in pixel (0, 0)

  /** The header pixel encode writes for a message of len bytes: the base-255 digits
      of len, most significant in red. A length of 255^4 or more loses its top digit. */
  function HeaderPixel(len: nat): (p: Pixel)
    ensures p.r < 255 && p.g < 255 && p.b < 255 && p.a < 255
    ensures HeaderLength(p) == len % HEADER_RANGE
  {
    HeaderDigits(len);
    Pixel((len / (255 * 255 * 255)) % 255, (len / (255 * 255)) % 255, (len / 255) % 255, len % 255)
  }

  /** The length decode reads from pixel (0, 0), computed in `u32` arithmetic in the
      source; it cannot overflow, even when a channel holds 255. */
  function HeaderLength(p: Pixel): (len: nat)
    ensures len < 0x1_0000_0000
  {
    p.r * (255 * 255 * 255) + p.g * (255 * 255) + p.b * 255 + p.a
  }

  /** A header pixel whose channels are all base-255 digits is the one its length produces. */
  lemma HeaderOfLength(p: Pixel)
    requires p.r < 255 && p.g < 255 && p.b < 255 && p.a < 255
    ensures HeaderPixel(HeaderLength(p)) == p
  {
    var len := HeaderLength(p);
    var q1 := p.r * (255 * 255) + p.g * 255 + p.b;
    var q2 := p.r * 255 + p.g;
    DivModUnique(len, 255, q1, p.a);
    DivModUnique(q1, 255, q2, p.b);
    DivModUnique(q2, 255, p.r, p.g);
    DivDiv(len, 255, 255);
    DivDiv(len, 255 * 255, 255);
  }

  /** The four digits of len recombine to len modulo 255^4. */
  lemma HeaderDigits(len: nat)
    ensures (len / (255 * 255 * 255)) % 255 * (255 * 255 * 255) + (len / (255 * 255)) % 255 * (255 * 255)
            + (len / 255) % 255 * 255 + len % 255 == len % HEADER_RANGE
  {
    var q1 := len / 255;
    var q2 := len / (255 * 255);
    var q3 := len / (255 * 255 * 255);
    DivDiv(len, 255, 255);
    DivDiv(len, 255 * 255, 255);
    assert q2 == q1 / 255 && q3 == q2 / 255;
    var d0, d1, d2, d3 := len % 255, q1 % 255, q2 % 255, q3 % 255;
    assert len == 255 * q1 + d0;
    assert q1 == 255 * q2 + d1;
    assert q2 == 255 * q3 + d2;
    assert q3 == 255 * (q3 / 255) + d3;
    DivModUnique(len, HEADER_RANGE, q3 / 255, d3 * (255 * 255 * 255) + d2 * (255 * 255) + d1 * 255 + d0);
  }

  /** Dividing by a and then by b is dividing by a * b. */
  lemma DivDiv(n: nat, a: nat, b: nat)
    requires a > 0 && b > 0
    ensures n / a / b == n / (a * b)
  {
    var q, r1 := n / a, n % a;
    var q2, r2 := q / b, q % b;
    MulNonnegative(a, b - 1 - r2);
    assert n == (a * b) * q2 + (a * r2 + r1) by {
      assert n == a * q + r1;
      assert a * q == a * (b * q2 + r2);
    }
    DivModUnique(n, a * b, q2, a * r2 + r1);
  }

  // ---------------------------------------------------------------------------
  // What encode does to each pixel

  /** Message bit d: `(message_bytes[d / 8] >> (d % 8)) % 2`. */
  function MessageBit(message: seq<u8>, d: nat): Bit
    requires d < 8 * |message|
  {
    BitOf(message[d / 8], d % 8)
  }

  /** All 8 * |message| message bits, in the order encode embeds them. */
  function MessageBits(message: seq<u8>): seq<Bit>
  {
    seq(8 * |message|, d requires 0 <= d < 8 * |message| => MessageBit(message, d))
  }

  /** p with the least significant bit of its red channel set to bit (`r - r % 2 + bit`):
      the upper seven red bits and the other three channels are kept. */
  function WithRedLsb(p: Pixel, bit: Bit): (q: Pixel)
    ensures q.r % 2 == bit && q.r / 2 == p.r / 2
    ensures q.g == p.g && q.b == p.b && q.a == p.a
  {
    p.(r := p.r - p.r % 2 + bit)
  }

  /** The pixel encode leaves at scan position k, where it found p: the header at
      position 0, message bit k - 1 at positions 1 to 8 * |message|, p itself after that. */
  function EmbedAt(message: seq<u8>, p: Pixel, k: nat): Pixel
  {
    if k == 0 then HeaderPixel(|message|)
    else if k - 1 < 8 * |message| then WithRedLsb(p, MessageBit(message, k - 1))
    else p
  }

  /** The scan sequence of the image encode returns, given the scan sequence s of the
      image it was passed. */
  function EncodeScan(message: seq<u8>, s: seq<Pixel>): (t: seq<Pixel>)
    ensures |t| == |s|
  {
    seq(|s|, k requires 0 <= k < |s| => EmbedAt(message, s[k], k))
  }

  // ---------------------------------------------------------------------------
  // What decode reads

  /** The red-channel least significant bits of every pixel after the header, in scan order. */
  function RedLsbs(s: seq<Pixel>): (bits: seq<Bit>)
    requires |s| > 0
    ensures |bits| == |s| - 1
  {
    seq(|s| - 1, i requires 0 <= i < |s| - 1 => s[i + 1].r % 2)
  }

  /** Groups bits into bytes, eight at a time and least significant bit first; a last
      group of fewer than eight bits is dropped, as decode only pushes complete bytes. */
  function Unpack(bits: seq<Bit>): (bytes: seq<u8>)
    ensures |bytes| == |bits| / 8
  {
    seq(|bits| / 8, i requires 0 <= i < |bits| / 8 => Accumulate(bits[8 * i .. 8 * i + 8]))
  }

  /** The bytes decode collects from an image with scan sequence s: it reads the length
      from the header, then gathers bits until it has 8 * length of them or runs out of
      pixels, and keeps the complete bytes. */
  function DecodeBytes(s: seq<Pixel>): (bytes: seq<u8>)
    ensures |s| > 0 ==> |bytes| == Min(HeaderLength(s[0]), (|s| - 1) / 8)
    ensures |s| == 0 ==> bytes == []
  {
    if |s| == 0 then []
    else Unpack(RedLsbs(s)[..Min(8 * HeaderLength(s[0]), |s| - 1)])
  }

  /** The `String` decode returns: the collected bytes, or "Not UTF8" when they are not UTF-8. */
  function DecodedText(s: seq<Pixel>): seq<u8>
  {
    TextOf(DecodeBytes(s))
  }

  // ---------------------------------------------------------------------------
  // The codec

  /** `DefaultSteganoGrapher::encode`, updating the image in place. The message is given as
      its bytes (`message.as_bytes()`). There is no capacity check: bits that find no
      pixel are dropped without an error. */
  method Encode(message: seq<u8>, img: Rgba)
    modifies img
    ensures Scan(img) == EncodeScan(message, old(Scan(img)))
  {
    ghost var before := Scan(img);
    var width, height := img.Length0, img.Length1;
    var messageBytesLen := |message|;
    var messageBitLen := messageBytesLen * 8;
    var bitPointer := 0;
    ghost var visited := 0;
    NothingEncoded(img, message);
    for x := 0 to width
      invariant visited == x * height
      invariant bitPointer == if visited == 0 then 0 else visited - 1
      invariant bitPointer <= messageBitLen
      invariant EncodedBefore(img, message, before, x, 0)
    {
      for y := 0 to height
        invariant visited == x * height + y
        invariant bitPointer == if visited == 0 then 0 else visited - 1
        invariant bitPointer <= messageBitLen
        invariant EncodedBefore(img, message, before, x, y)
      {
        VisitedPosition(x, y, width, height);
        ghost var k := ScanPosition(x, y, width, height);
        if x == 0 && y == 0 {
          var header := LengthPixel(messageBytesLen);
          img[x, y] := header;
          assert img[x, y] == EmbedAt(message, before[k], k);
          visited := visited + 1;
          continue;
        }
        if bitPointer >= messageBitLen {
          EncodedAtStop(img, message, before, x, y);
          return;
        }
        var pixel := img[x, y];
        assert pixel == before[k] && bitPointer == k - 1;
        var marked := EmbedBit(pixel, message, bitPointer);
        img[x, y] := marked;
        assert img[x, y] == EmbedAt(message, before[k], k);
        bitPointer := bitPointer + 1;
        visited := visited + 1;
      }
      assert (x + 1) * height == x * height + height;
    }
    EncodedScan(img, message, before);
  }

  /** Encode's work on the header pixel: the base-255 digits of the message length. */
  method LengthPixel(messageBytesLen: nat) returns (p: Pixel)
    ensures p == HeaderPixel(messageBytesLen)
  {
    p := Pixel(
      (messageBytesLen / (255 * 255 * 255)) % 255,
      (messageBytesLen / (255 * 255)) % 255,
      (messageBytesLen / 255) % 255,
      messageBytesLen % 255);
  }

  /** Encode's work on a pixel after the header while message bits remain: clear the least
      significant bit of red, then add message bit bitPointer. */
  method EmbedBit(pixel: Pixel, message: seq<u8>, bitPointer: nat) returns (q: Pixel)
    requires bitPointer < 8 * |message|
    ensures q == WithRedLsb(pixel, MessageBit(message, bitPointer))
  {
    var r := pixel.r - pixel.r % 2;
    var byte := message[bitPointer / 8];
    var bit := (byte / Pow2(bitPointer % 8)) % 2;
    q := Pixel(r + bit, pixel.g, pixel.b, pixel.a);
  }

  /** Encode's loop state before it visits pixel (x, y): the pixels it has visited hold what
      EmbedAt gives, the others are as they were (`before` is the scan sequence on entry). */
  ghost predicate EncodedBefore(img: Rgba, message: seq<u8>, before: seq<Pixel>, x: nat, y: nat)
    reads img
    requires |before| == img.Length0 * img.Length1
  {
    forall x', y' :: 0 <= x' < img.Length0 && 0 <= y' < img.Length1 ==>
      var k := ScanPosition(x', y', img.Length0, img.Length1);
      img[x', y'] == if x' < x || (x' == x && y' < y) then EmbedAt(message, before[k], k) else before[k]
  }

  /** Before encode writes anything, every pixel is as it was. */
  lemma NothingEncoded(img: Rgba, message: seq<u8>)
    ensures EncodedBefore(img, message, Scan(img), 0, 0)
  {
    forall x, y | 0 <= x < img.Length0 && 0 <= y < img.Length1
      ensures img[x, y] == Scan(img)[ScanPosition(x, y, img.Length0, img.Length1)]
    {
      ScanAt(img, x, y);
    }
  }

  /** When encode returns early at pixel (x, y), every pixel from there on is past the last
      message bit, so leaving it alone is what EncodeScan does. */
  lemma EncodedAtStop(img: Rgba, message: seq<u8>, before: seq<Pixel>, x: nat, y: nat)
    requires x < img.Length0 && y < img.Length1 && |before| == img.Length0 * img.Length1
    requires EncodedBefore(img, message, before, x, y)
    requires ScanPosition(x, y, img.Length0, img.Length1) > 8 * |message|
    ensures Scan(img) == EncodeScan(message, before)
  {
    var width, height := img.Length0, img.Length1;
    forall x', y' | 0 <= x' < width && 0 <= y' < height && (x' > x || (x' == x && y' >= y))
      ensures ScanPosition(x', y', width, height) > 8 * |message|
    {
      ScanOrderMonotone(x, y, x', y', height);
    }
    EncodedScan(img, message, before);
  }

  /** Pixel by pixel, encode's effect is EncodeScan on the scan sequence. */
  lemma EncodedScan(img: Rgba, message: seq<u8>, before: seq<Pixel>)
    requires |before| == img.Length0 * img.Length1
    requires forall x, y :: 0 <= x < img.Length0 && 0 <= y < img.Length1 ==>
               var k := ScanPosition(x, y, img.Length0, img.Length1);
               img[x, y] == EmbedAt(message, before[k], k)
    ensures Scan(img) == EncodeScan(message, before)
  {
    var width, height := img.Length0, img.Length1;
    var after := Scan(img);
    forall k | 0 <= k < width * height
      ensures after[k] == EmbedAt(message, before[k], k)
    {
      ScanCoordinatesOf(k, width, height);
      var x, y := k / height, k % height;
      assert ScanPosition(x, y, width, height) == k;
      ScanAt(img, x, y);
    }
  }

  /** Decode's four loop variables: `message_bytes`, `message_bit_len`, `bit_pointer` and
      `curr_byte_buffer`. */
  datatype DecoderState = DecoderState(messageBytes: seq<u8>, messageBitLen: nat, bitPointer: nat,
                                       currByteBuffer: nat)

  /** The byte in progress holds only the bits read since the last complete byte, so adding
      the next bit cannot overflow the `u8` buffer. */
  predicate BufferFits(st: DecoderState)
  {
    st.currByteBuffer < Pow2(st.bitPointer % 8)
  }

  /** Decode's work on a pixel after the header while message bits remain: its red least
      significant bit goes into the buffer at the next shift, and every eighth bit pushes
      the buffer as a complete byte and empties it. */
  function ReadBit(st: DecoderState, p: Pixel): (next: DecoderState)
    requires BufferFits(st)
    ensures BufferFits(next)
    ensures next.messageBitLen == st.messageBitLen && next.bitPointer == st.bitPointer + 1
  {
    ShiftedBitFits(st.currByteBuffer, p.r % 2, st.bitPointer % 8);
    var buffer := st.currByteBuffer + (p.r % 2) * Pow2(st.bitPointer % 8);
    var bitPointer := st.bitPointer + 1;
    if bitPointer % 8 == 0 then DecoderState(st.messageBytes + [buffer], st.messageBitLen, bitPointer, 0)
    else DecoderState(st.messageBytes, st.messageBitLen, bitPointer, buffer)
  }

  /** The state decode is in after visiting the first k pixels of the scan sequence s, had
      it not returned yet: the header pixel sets the bit count and every later pixel is one
      ReadBit. */
  function StateAfter(s: seq<Pixel>, k: nat): (st: DecoderState)
    requires k <= |s|
    ensures BufferFits(st)
  {
    if k == 0 then DecoderState([], 0, 0, 0)
    else if k == 1 then DecoderState([], 8 * HeaderLength(s[0]), 0, 0)
    else ReadBit(StateAfter(s, k - 1), s[k - 1])
  }

  /** `DefaultSteganoGrapher::decode`: reads the length header, collects red-channel least
      significant bits into bytes, and renders them as text. */
  method Decode(img: Rgba) returns (text: seq<u8>)
    ensures text == DecodedText(Scan(img))
    ensures ValidUtf8(text)
  {
    ghost var s := Scan(img);
    var width, height := img.Length0, img.Length1;
    var messageBytes: seq<u8> := [];
    var messageBitLen: nat := 0;
    var bitPointer: nat := 0;
    var currByteBuffer: u8 := 0;
    ghost var visited := 0;
    for x := 0 to width
      invariant visited == x * height && visited <= |s|
      invariant visited > 0 ==> bitPointer <= messageBitLen
      invariant DecoderState(messageBytes, messageBitLen, bitPointer, currByteBuffer) == StateAfter(s, visited)
    {
      for y := 0 to height
        invariant visited == x * height + y && visited <= |s|
        invariant visited > 0 ==> bitPointer <= messageBitLen
        invariant DecoderState(messageBytes, messageBitLen, bitPointer, currByteBuffer) == StateAfter(s, visited)
      {
        PixelAt(img, x, y);
        var pixel := img[x, y];
        if x == 0 && y == 0 {
          messageBitLen := ReadHeader(pixel);
          messageBytes := [];
          assert pixel == s[0];
          visited := visited + 1;
          continue;
        }
        if bitPointer >= messageBitLen {
          StopStep(s, visited);
          text := TextOf(messageBytes);
          return;
        }
        assert pixel == s[visited];
        BitStep(s, visited);
        messageBytes, bitPointer, currByteBuffer := PushBit(pixel, messageBytes, messageBitLen, bitPointer, currByteBuffer);
        visited := visited + 1;
      }
      assert (x + 1) * height == x * height + height;
    }
    if |s| > 0 {
      StopStep(s, |s|);
    }
    text := TextOf(messageBytes);
  }

  /** The body of decode's loop for a pixel after the header while message bits remain: the
      red least significant bit is added to `curr_byte_buffer` at shift `bit_pointer % 8`,
      and every eighth bit pushes the buffer onto `message_bytes` and empties it. */
  method PushBit(pixel: Pixel, messageBytes: seq<u8>, messageBitLen: nat, bitPointer: nat, currByteBuffer: u8)
    returns (messageBytes': seq<u8>, bitPointer': nat, currByteBuffer': u8)
    requires BufferFits(DecoderState(messageBytes, messageBitLen, bitPointer, currByteBuffer))
    ensures DecoderState(messageBytes', messageBitLen, bitPointer', currByteBuffer')
            == ReadBit(DecoderState(messageBytes, messageBitLen, bitPointer, currByteBuffer), pixel)
  {
    ShiftedBitFits(currByteBuffer, pixel.r % 2, bitPointer % 8);
    var bit := (pixel.r % 2) * Pow2(bitPointer % 8);
    currByteBuffer' := currByteBuffer + bit;
    bitPointer' := bitPointer + 1;
    messageBytes' := messageBytes;
    if bitPointer' % 8 == 0 {
      messageBytes' := messageBytes + [currByteBuffer'];
      currByteBuffer' := 0;
    }
  }

  /** Decode's work on the header pixel: the message length, read in base 255, times 8. */
  method ReadHeader(pixel: Pixel) returns (messageBitLen: nat)
    ensures messageBitLen == 8 * HeaderLength(pixel)
  {
    var messageBytesLen := pixel.r * (255 * 255 * 255) + pixel.g * (255 * 255) + pixel.b * 255 + pixel.a;
    messageBitLen := messageBytesLen * 8;
  }

  /** Every pixel after the header is one ReadBit. */
  lemma BitStep(s: seq<Pixel>, k: nat)
    requires 0 < k < |s|
    ensures StateAfter(s, k + 1) == ReadBit(StateAfter(s, k), s[k])
  {
  }

  /** Pixel (x, y) is at scan position x * height + y, which is 0 only for (0, 0). */
  lemma VisitedPosition(x: nat, y: nat, width: nat, height: nat)
    requires x < width && y < height
    ensures x * height + y < width * height
    ensures x == 0 && y == 0 <==> x * height + y == 0
  {
    CoordinatesOfScanPosition(x, y, width, height);
    if x > 0 {
      MulNonnegative(x - 1, height);
      assert x * height == (x - 1) * height + height;
    }
  }

  /** After the header, decode has read one bit per pixel: its bytes are the complete bytes
      of those bits, and its buffer holds the bits of the byte in progress. */
  lemma {:induction false} StateAfterReads(s: seq<Pixel>, k: nat)
    requires 0 < k <= |s|
    ensures StateAfter(s, k) == ReadState(RedLsbs(s), k - 1, 8 * HeaderLength(s[0]))
  {
    var bits, messageBitLen := RedLsbs(s), 8 * HeaderLength(s[0]);
    if k == 1 {
      assert bits[..0] == [];
      assert ReadState(bits, 0, messageBitLen) == DecoderState([], messageBitLen, 0, 0);
    } else {
      StateAfterReads(s, k - 1);
      BitStep(s, k - 1);
      assert s[k - 1].r % 2 == bits[k - 2];
      ReadBitReads(bits, k - 2, messageBitLen, s[k - 1]);
    }
  }

  /** The state after reading the first n of the given bits, with the given bit count. */
  function ReadState(bits: seq<Bit>, n: nat, messageBitLen: nat): DecoderState
    requires n <= |bits|
  {
    DecoderState(Unpack(bits[..n]), messageBitLen, n, Accumulate(bits[n - n % 8 .. n]))
  }

  /** ReadBit on a pixel carrying bit n extends the state to n + 1 bits read. */
  lemma ReadBitReads(bits: seq<Bit>, n: nat, messageBitLen: nat, p: Pixel)
    requires n < |bits| && p.r % 2 == bits[n]
    requires BufferFits(ReadState(bits, n, messageBitLen))
    ensures ReadBit(ReadState(bits, n, messageBitLen), p) == ReadState(bits, n + 1, messageBitLen)
  {
    var lo := n - n % 8;
    AccumulateSnoc(bits, lo, n);
    UnpackSnoc(bits, n);
    var buffer := Accumulate(bits[lo..n + 1]);
    assert buffer == Accumulate(bits[lo..n]) + (p.r % 2) * Pow2(n % 8);
    if (n + 1) % 8 == 0 {
      assert lo == n + 1 - 8;
      assert ReadBit(ReadState(bits, n, messageBitLen), p)
          == DecoderState(Unpack(bits[..n]) + [buffer], messageBitLen, n + 1, 0);
    } else {
      assert lo == (n + 1) - (n + 1) % 8;
      assert ReadBit(ReadState(bits, n, messageBitLen), p)
          == DecoderState(Unpack(bits[..n]), messageBitLen, n + 1, buffer);
    }
  }

  /** Decode stops once it has read all 8 * length message bits or run out of pixels, and
      has then collected exactly the bytes DecodeBytes describes. */
  lemma StopStep(s: seq<Pixel>, k: nat)
    requires 0 < k <= |s|
    requires var st := StateAfter(s, k);
             st.bitPointer == st.messageBitLen || (k == |s| && st.bitPointer <= st.messageBitLen)
    ensures StateAfter(s, k).messageBytes == DecodeBytes(s)
  {
    StateAfterReads(s, k);
    assert Min(8 * HeaderLength(s[0]), |s| - 1) == k - 1;
  }

  /** Accumulating one more bit adds it at the next shift. */
  lemma AccumulateSnoc(bits: seq<Bit>, lo: nat, hi: nat)
    requires lo <= hi < |bits| && hi - lo < 8
    ensures Accumulate(bits[lo..hi + 1]) == Accumulate(bits[lo..hi]) + bits[hi] * Pow2(hi - lo)
  {
    assert bits[lo..hi + 1][..hi - lo] == bits[lo..hi];
  }

  /** Reading one more bit completes a byte exactly when the bit count reaches a multiple of 8. */
  lemma UnpackSnoc(bits: seq<Bit>, n: nat)
    requires n < |bits|
    ensures (n + 1) % 8 == 0 ==> Unpack(bits[..n + 1]) == Unpack(bits[..n]) + [Accumulate(bits[n + 1 - 8 .. n + 1])]
    ensures (n + 1) % 8 != 0 ==> Unpack(bits[..n + 1]) == Unpack(bits[..n])
  {
    var longer, shorter := Unpack(bits[..n + 1]), Unpack(bits[..n]);
    forall i | 0 <= i < |shorter|
      ensures longer[i] == shorter[i]
    {
      assert bits[..n + 1][8 * i .. 8 * i + 8] == bits[..n][8 * i .. 8 * i + 8];
    }
    if (n + 1) % 8 == 0 {
      assert bits[..n + 1][8 * ((n + 1) / 8 - 1) .. 8 * ((n + 1) / 8 - 1) + 8] == bits[n + 1 - 8 .. n + 1];
    }
  }

  // ---------------------------------------------------------------------------
  // Properties of the codec

  /** Message bit d ends up in the red least significant bit of the pixel at scan position
      d + 1, when the image has that many pixels. */
  lemma BitPlacement(message: seq<u8>, s: seq<Pixel>, d: nat)
    requires d < 8 * |message| && d + 1 < |s|
    ensures EncodeScan(message, s)[d + 1].r % 2 == BitOf(message[d / 8], d % 8)
  {
  }

  /** Encode leaves every pixel but the header pixel as it was, except for the least
      significant bit of its red channel; pixels after message bit 8 * |message| - 1 are
      not touched at all. */
  lemma MinimalPerturbation(message: seq<u8>, s: seq<Pixel>, k: nat)
    requires 0 < k < |s|
    ensures var t := EncodeScan(message, s);
            t[k].r / 2 == s[k].r / 2 && t[k].g == s[k].g && t[k].b == s[k].b && t[k].a == s[k].a
    ensures k > 8 * |message| ==> EncodeScan(message, s)[k] == s[k]
  {
  }

  /** Unpacking the first n message bits gives back the first n / 8 message bytes. */
  lemma UnpackMessageBits(message: seq<u8>, n: nat)
    requires n <= 8 * |message|
    ensures Unpack(MessageBits(message)[..n]) == message[..n / 8]
  {
    var bits := MessageBits(message)[..n];
    forall i | 0 <= i < n / 8
      ensures Unpack(bits)[i] == message[i]
    {
      assert bits[8 * i .. 8 * i + 8] == ByteBits(message[i]);
      AccumulateByteBits(message[i]);
    }
  }

  /** What decode recovers from an encoded image, for every message and every image with at
      least one pixel: the message, cut to the length the header can hold (modulo 255^4)
      and to the number of whole bytes that found pixels. */
  lemma DecodeEncode(message: seq<u8>, s: seq<Pixel>)
    requires |s| > 0
    ensures DecodeBytes(EncodeScan(message, s)) == message[..Min(|message| % HEADER_RANGE, (|s| - 1) / 8)]
  {
    var t := EncodeScan(message, s);
    var len := |message| % HEADER_RANGE;
    assert HeaderLength(t[0]) == len;
    ModBound(|message|, HEADER_RANGE);
    var n := Min(8 * len, |s| - 1);
    EncodedRedLsbs(message, s, n);
    UnpackMessageBits(message, n);
    MinDiv(len, |s| - 1);
  }

  /** The bits decode reads from an encoded image are the message bits, as far as both go. */
  lemma EncodedRedLsbs(message: seq<u8>, s: seq<Pixel>, n: nat)
    requires 0 < |s| && n <= |s| - 1 && n <= 8 * |message|
    ensures RedLsbs(EncodeScan(message, s))[..n] == MessageBits(message)[..n]
  {
    var t := EncodeScan(message, s);
    forall d | 0 <= d < n
      ensures RedLsbs(t)[d] == MessageBits(message)[d]
    {
      BitPlacement(message, s, d);
    }
  }

  lemma MinDiv(a: nat, b: nat)
    ensures Min(8 * a, b) / 8 == Min(a, b / 8)
  {
    DivModUnique(b, 8, b / 8, b % 8);
    DivModUnique(8 * a, 8, a, 0);
  }

  lemma ModBound(a: nat, d: nat)
    requires d > 0
    ensures a % d <= a
  {
    DivModUnique(a, d, a / d, a % d);
    MulNonnegative(a / d, d);
  }

  /** Round trip: a message that fits the header and the image is recovered byte for byte. */
  lemma RoundTrip(message: seq<u8>, s: seq<Pixel>)
    requires |message| < HEADER_RANGE && 8 * |message| <= |s| - 1
    ensures DecodeBytes(EncodeScan(message, s)) == message
  {
    DecodeEncode(message, s);
    DivModUnique(|message|, HEADER_RANGE, 0, |message|);
    DivBound(|s| - 1, 8, |message|);
    assert message[..|message|] == message;
  }

  /** A `&str` message, being valid UTF-8, comes back from decode as the same text. */
  lemma TextRoundTrip(message: seq<u8>, s: seq<Pixel>)
    requires ValidUtf8(message)
    requires |message| < HEADER_RANGE && 8 * |message| <= |s| - 1
    ensures DecodedText(EncodeScan(message, s)) == message
  {
    RoundTrip(message, s);
  }

  /** a / d is at least q when q * d <= a. */
  lemma DivBound(a: nat, d: nat, q: nat)
    requires d > 0 && q * d <= a
    ensures a / d >= q
  {
    DivModUnique(a, d, a / d, a % d);
    if a / d < q {
      MulNonnegative(q - a / d - 1, d);
      assert false;
    }
  }

  /** Without a capacity check, a message longer than the image can hold is encoded without
      error, and decode returns only the bytes whose bits all found a pixel. */
  lemma Overflow(message: seq<u8>, s: seq<Pixel>)
    requires |message| < HEADER_RANGE && 0 < |s| && |s| - 1 < 8 * |message|
    ensures DecodeBytes(EncodeScan(message, s)) == message[..(|s| - 1) / 8]
    ensures (|s| - 1) / 8 < |message|
  {
    DecodeEncode(message, s);
    DivModUnique(|message|, HEADER_RANGE, 0, |message|);
    assert Min(|message|, (|s| - 1) / 8) == (|s| - 1) / 8;
  }
}
