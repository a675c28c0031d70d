# LSB steganography in RGBA images — a Dafny model

This project models the core of `image-manipulation`, a Rust tool that hides a text in an
image and reads it back.

- **The codec, `DefaultSteganoGrapher`.** `encode` walks the image column by column (`x` in
  the outer loop, `y` in the inner one). It overwrites pixel (0, 0) with the message's byte
  length, written as four base-255 digits in r, g, b and a. It then stores one message bit in
  the least significant bit of the red channel of each following pixel. Bits go least
  significant first within each byte, and encode stops once all `8 * len` bits are written.
  `decode` reads the length back from pixel (0, 0) as `r*255^3 + g*255^2 + b*255 + a`. It then
  gathers red least significant bits into bytes until it has `8 * len` bits or runs out of
  pixels, and returns the bytes as a `String`, or `"Not UTF8"` when they are not UTF-8.
- **The command layer, `encode_command` and `decode_command`.** Both check that an optional
  key is exactly 32 bytes long. Both use AES-SIV with the constant nonce `"any unique nonce"`.
  Without a key, the text passes through unchanged. `decode_command` returns fixed error
  texts. `encode_command` prints them and returns early, which the model records as an
  `EncodeOutcome`. `encode_command` also derives the output path from the input path.

Files:

- `bytes.dfy` (module `Bytes`): `u8` as an integer subset type, so every Rust `u8` overflow
  becomes a proof obligation. It also holds the shift arithmetic on bytes and bit
  accumulation with its inverse.
- `utf8.dfy` (module `Utf8`): Rust strings as their UTF-8 bytes. `ValidUtf8` follows the byte
  ranges of Table 3-7 of the Unicode Standard, section 3.9. `TextOf` is
  `String::from_utf8(..).unwrap_or(String::from("Not UTF8"))`.
- `image.dfy` (module `Image`): the image as a mutable `array2<Pixel>` indexed `[x, y]`.
  `Scan` is the column-major visiting order, in which pixel (x, y) sits at position
  `x * height + y`.
- `steganography.dfy` (module `Steganography`): `Encode` and `Decode` are methods with the
  source's nested loops over the array. Each is proved against a pure function on the scan
  sequence: `EncodeScan` for encode, `DecodeBytes` / `DecodedText` for decode. The round trip
  and the other codec properties are lemmas about those functions.
- `commands.dfy` (module `Commands`): `EncodeCommand` and `DecodeCommand` are methods over an
  already opened image (`None` when opening failed) and an abstract `Cipher`. They are proved
  against `PayloadOf` and `Reply`. `OutputPath` models the path expression.

Behaviour of the code worth knowing:

- The length header is pixel (0, 0), in base 255.
- There is no capacity check: bits that find no pixel are dropped without an error.
- The key is checked only after the image has been read.
- Decode stops at the end of the image even when the header announces more bits.

## Model

| member | source | states |
|---|---|---|
| Bytes.ShiftedBitFits | src/stegano/steganography.rs:83-84 | Adding bit i of a byte at shift i to a buffer that holds only bits below i keeps it under 2^(i+1) ≤ 256, so `curr_byte_buffer += bit` cannot overflow. |
| Bytes.AccumulateByteBits | src/stegano/steganography.rs:46-47 | Splitting a byte into its bits `(byte >> i) % 2` and accumulating them least significant first gives the byte back. |
| Bytes.ByteBitsAccumulate | src/stegano/steganography.rs:83-89 | Conversely, the bits of a byte accumulated from eight bits are those eight bits: bit packing and unpacking are inverse. |
| Utf8.TextOf | src/stegano/steganography.rs:92 | The result is always valid UTF-8. It equals the input exactly when the input is valid UTF-8, and is "Not UTF8" otherwise. |
| Utf8.ValidUtf8 | src/stegano/steganography.rs:80 | What `String::from_utf8` accepts: the bytes split into well-formed UTF-8 sequences (the byte ranges of Table 3-7 of the Unicode Standard). |
| Image.ScanAt | src/stegano/steganography.rs:26-27 | Pixel (x, y) is the element at position x * height + y of the column-major scan sequence. |
| Image.PixelAt | src/stegano/steganography.rs:65-69 | As ScanAt, and position x * height + y is 0 exactly for pixel (0, 0), the header pixel. |
| Image.ScanCoordinatesOf | src/stegano/steganography.rs:26-27 | Every scan position k names a pixel: (k / height, k % height) is inside the image and maps back to k. |
| Image.ScanOrderMonotone | src/stegano/steganography.rs:26-27 | The loops visit (x, y) no later than (x', y') when x < x', or when x = x' and y ≤ y'. |
| Steganography.HeaderPixel | src/stegano/steganography.rs:29-35 | The header encode writes has four channels below 255, and decode's formula reads back len mod 255^4 from it. A length of 255^4 or more loses its top digit. |
| Steganography.HeaderLength | src/stegano/steganography.rs:70-73 | Decode's length formula stays below 2^32 for every pixel, so the `u32` arithmetic cannot overflow even with channels at 255. |
| Steganography.HeaderOfLength | src/stegano/steganography.rs:69-74 | A pixel whose channels are all below 255 is exactly the header encode writes for the length decode reads from it. |
| Steganography.WithRedLsb | src/stegano/steganography.rs:44-48 | `r - r % 2 + bit` has least significant bit `bit` and the same upper seven bits. The g, b and a channels are kept. |
| Steganography.EncodeScan | src/stegano/steganography.rs:26-53 | Encode's effect on the scan sequence, position by position (EmbedAt): position 0 becomes the header pixel, position d + 1 gets message bit d in its red least significant bit for d < 8 * len, later positions are kept, and the length is unchanged. |
| Steganography.Encode | src/stegano/steganography.rs:17-54 | The image's new scan sequence is EncodeScan of the message and the old one. |
| Steganography.LengthPixel | src/stegano/steganography.rs:29-35 | The loop step of Encode for pixel (0, 0): the pixel written is HeaderPixel of the message's byte length. |
| Steganography.EmbedBit | src/stegano/steganography.rs:43-48 | The loop step of Encode for a pixel after the header. For bitPointer < 8 * len, `message_bytes[bit_pointer / 8]` is in range, and `r + bit` fits a `u8`. The new pixel is WithRedLsb of message bit bitPointer. |
| Steganography.DecodeBytes | src/stegano/steganography.rs:79-92 | Decode collects min(header length, (pixels - 1) / 8) bytes, and none from an empty image. |
| Steganography.Decode | src/stegano/steganography.rs:58-93 | The returned text is DecodedText of the image's scan sequence, and it is valid UTF-8. |
| Steganography.ReadHeader | src/stegano/steganography.rs:69-74 | The loop step of Decode for pixel (0, 0): `message_bit_len` is 8 times the base-255 length read from pixel (0, 0). |
| Steganography.ReadBit | src/stegano/steganography.rs:83-89 | One bit step keeps the buffer within the bits read since the last complete byte, so it stays a `u8`. It advances `bit_pointer` by one and keeps the bit count. |
| Steganography.PushBit | src/stegano/steganography.rs:83-89 | The loop step of Decode for a pixel after the header: its update of `curr_byte_buffer`, `bit_pointer` and `message_bytes` for one pixel is ReadBit. |
| Steganography.StateAfterReads | src/stegano/steganography.rs:79-90 | After k pixels, decode holds the complete bytes of the k - 1 bits read, least significant bit first, and its buffer holds the bits of the byte in progress. |
| Steganography.StopStep | src/stegano/steganography.rs:79-81 | Decode returns once it has 8 * len bits or has visited every pixel. It then holds exactly DecodeBytes: whole bytes only, never past the image. |
| Steganography.BitPlacement | src/stegano/steganography.rs:46-48 | Message bit d, which is bit d % 8 of byte d / 8, lands in the red least significant bit of the pixel at scan position d + 1. |
| Steganography.MinimalPerturbation | src/stegano/steganography.rs:39-48 | Past the header pixel, encode changes at most the red least significant bit. Pixels past bit 8 * len - 1 are not touched. |
| Steganography.UnpackMessageBits | src/stegano/steganography.rs:83-89 | Regrouping the first n message bits into bytes gives the first n / 8 message bytes. |
| Steganography.DecodeEncode | src/stegano/steganography.rs:17-93 | For every message and non-empty image, decode after encode yields the message. It is cut to len mod 255^4 bytes and to the whole bytes that found pixels. |
| Steganography.RoundTrip | src/stegano/steganography.rs:17-93 | A message shorter than 255^4 bytes whose 8 * len bits fit in the pixels after the header is recovered exactly. |
| Steganography.TextRoundTrip | src/stegano/steganography.rs:80 | A `&str` message (valid UTF-8) that fits comes back from decode as the same text. |
| Steganography.Overflow | src/stegano/steganography.rs:26-53 | Without a capacity check, a message too long for the image is encoded without error, and decode returns only its first (pixels - 1) / 8 bytes. |
| Commands.ReplaceAllAbsent | src/commands.rs:55 | `str::replace` leaves a string in which the pattern does not occur unchanged. |
| Commands.ReplaceAll | src/commands.rs:55 | Rust's `str::replace`: occurrences of the pattern are found left to right without overlap and each is replaced. |
| Commands.ReplaceAfterPlain | src/commands.rs:55 | `str::replace` copies a pattern-free prefix unchanged when no occurrence can straddle it and the rest. |
| Commands.OutputPathOfImage | src/commands.rs:55 | `stem.png` and `stem.jpg` are both saved as `stem-e.png` when the stem contains neither extension. |
| Commands.OutputPath | src/commands.rs:55 | The output path: every ".jpg" replaced by ".png", then every ".png" replaced by "-e.png". |
| Commands.OutputPathOverwrites | src/commands.rs:55 | A path with neither extension is its own output path, so the encoded image overwrites its input file. |
| Commands.PayloadOf | src/commands.rs:29-47 | Without a key the payload is the text's bytes. A key that is not 32 bytes aborts with the invalid-key outcome. With a 32-byte key the payload is the encryption under the constant nonce, or an abort if encryption fails. |
| Commands.EncodeCommand | src/commands.rs:21-59 | A failed read returns at once. An abort leaves the image untouched. Otherwise the image becomes EncodeScan of the payload and is saved under OutputPath(inpath). |
| Commands.Reply | src/commands.rs:70-89 | Without a key the result is the decoded text. A key that is not 32 bytes gives INVALID_KEY_ERROR whatever the image. A failed decryption under the constant nonce gives DECRYPTION_ERROR. Otherwise it gives the plaintext as UTF-8 or "Not UTF8". |
| Commands.Unseal | src/commands.rs:70-89 | The step of DecodeCommand after decoding: the key gate, decryption and text conversion after decoding compute Reply. |
| Commands.DecodeCommand | src/commands.rs:61-92 | A failed read gives FILE_READING_ERROR. Otherwise the result is Reply applied to DecodedText of the image. |
| Commands.PlainRoundTrip | src/commands.rs:45-47 | Without a key, text that fits comes back from decode_command exactly as it went into encode_command. |
| Commands.KeyedRoundTrip | src/commands.rs:36-40 | With a 32-byte key and a cipher whose decryption undoes encryption, the text comes back, provided its ciphertext fits and is valid UTF-8. |
| Commands.KeyedDecodeLosesCiphertext | src/commands.rs:80 | A ciphertext that is not valid UTF-8 reaches the cipher as "Not UTF8", because decode_command decrypts the `String` decode returns, whatever the message was. |

## Left out

- Image files: `open_image_as_rgba` (src/commands.rs:94-105) is not modelled. The commands take the opened image, or `None` when opening failed. The image file decoder and encoder are not part of this model.
- Saving: `img.save` (src/commands.rs:56-58) is represented by the `Saved(outpath)` outcome. Its failure only prints `FILE_SAVING_ERROR` and is not modelled.
- `println!` output of both commands is left out. Only returned values and the image are modelled.
- AES-SIV is an abstract `Cipher` with two functions that may fail. No cryptographic property is modelled. `Inverts` is a hypothesis of KeyedRoundTrip only. Reusing the constant nonce for every message is a weakness of the source; nothing here proves it safe.
- The `Err` branch after `encode` (src/commands.rs:50-53) is absent: the `encode` in src/stegano/steganography.rs returns an image and cannot fail. That call also passes a byte vector, while `encode` takes a `&str`. The model's `Encode` takes bytes and uses only `message.as_bytes()`.
- Commands.DecodeCommand: `decode` returns a `String`, and its bytes are what gets decrypted. In the source the two arms of the `if let` at src/commands.rs:70-88 have different types. The model follows the keyed arm: bytes in, bytes out.
- Commands.DecodeCommand: the input path is only used to open the image, so it is not a parameter.
- Commands.Reply: does not state that the error texts are valid UTF-8. They are ASCII, but proving that for the long constants is beyond the solver's budget here.
- The `Encode`/`Decode` traits (src/stegano/steganography.rs:3-12), src/gui.rs and src/main.rs are not part of this model.
- Machine integers: image coordinates (`u32`) are unbounded naturals. `usize` is assumed wide enough for `message_bytes_len * 8`. The `as u8` casts of the header digits are exact because each digit is below 255. `u8` channel and buffer arithmetic, and the `u32` header sum, are checked against their bounds.
- `Vec::with_capacity` in decode (src/stegano/steganography.rs:75) is modelled as an empty vector; its allocation is not modelled.
- Steganography.Decode: the up-front allocation of header-length bytes at src/stegano/steganography.rs:75 is assumed to succeed. The header can announce up to 4,244,897,280 bytes (pixel (255, 255, 255, 255), such as an opaque white top-left pixel of an image that was never encoded), and a failed allocation of about 4.2 GB aborts a Rust process. The model returns a text for every image.
