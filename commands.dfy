/** The command layer: `encode_command` and `decode_command`. The image file a command
    opens is given as the result of opening it (`None` when reading or decoding the file
    failed), and AES-SIV as a pair of functions that may fail; the commands themselves
    are the key-length gate, the choice between encrypting and passing the text through,
    the output path and the error texts. Text is handled as its UTF-8 bytes. */
module Commands {
  import opened Bytes
  import opened Utf8
  import opened Image
  import opened Steganography

  datatype Option<T> = None | Some(value: T)

  /** What both commands report when the image cannot be read: the bytes of
      "Error: A problem occured while reading the input file.". */
  const FILE_READING_ERROR: seq<u8> :=
    [0x45, 0x72, 0x72, 0x6f, 0x72, 0x3a, 0x20, 0x41, 0x20, 0x70, 0x72, 0x6f, 0x62, 0x6c, 0x65, 0x6d,
     0x20, 0x6f, 0x63, 0x63, 0x75, 0x72, 0x65, 0x64, 0x20, 0x77, 0x68, 0x69, 0x6c, 0x65, 0x20, 0x72,
     0x65, 0x61, 0x64, 0x69, 0x6e, 0x67, 0x20, 0x74, 0x68, 0x65, 0x20, 0x69, 0x6e, 0x70, 0x75, 0x74,
     0x20, 0x66, 0x69, 0x6c, 0x65, 0x2e]

  /** What both commands report for a key that is not 32 bytes long: the bytes of
      "Error: The key should be 32 bytes.". */
  const INVALID_KEY_ERROR: seq<u8> :=
    [0x45, 0x72, 0x72, 0x6f, 0x72, 0x3a, 0x20, 0x54, 0x68, 0x65, 0x20, 0x6b, 0x65, 0x79, 0x20, 0x73,
     0x68, 0x6f, 0x75, 0x6c, 0x64, 0x20, 0x62, 0x65, 0x20, 0x33, 0x32, 0x20, 0x62, 0x79, 0x74, 0x65,
     0x73, 0x2e]

  /** What decode_command reports when decryption fails: the bytes of
      "Error: Decryption did not work. Either invalid key or non decryptable file.". */
  const DECRYPTION_ERROR: seq<u8> :=
    [0x45, 0x72, 0x72, 0x6f, 0x72, 0x3a, 0x20, 0x44, 0x65, 0x63, 0x72, 0x79, 0x70, 0x74, 0x69, 0x6f,
     0x6e, 0x20, 0x64, 0x69, 0x64, 0x20, 0x6e, 0x6f, 0x74, 0x20, 0x77, 0x6f, 0x72, 0x6b, 0x2e, 0x20,
     0x45, 0x69, 0x74, 0x68, 0x65, 0x72, 0x20, 0x69, 0x6e, 0x76, 0x61, 0x6c, 0x69, 0x64, 0x20, 0x6b,
     0x65, 0x79, 0x20, 0x6f, 0x72, 0x20, 0x6e, 0x6f, 0x6e, 0x20, 0x64, 0x65, 0x63, 0x72, 0x79, 0x70,
     0x74, 0x61, 0x62, 0x6c, 0x65, 0x20, 0x66, 0x69, 0x6c, 0x65, 0x2e]

  /** The only key length the commands accept, in bytes of the key text. */
  const KEY_LENGTH: nat := 32

  /** The nonce both commands pass to the cipher, whatever the key and the message: the
      bytes of "any unique nonce". */
  const NONCE: seq<u8> :=
    [0x61, 0x6e, 0x79, 0x20, 0x75, 0x6e, 0x69, 0x71, 0x75, 0x65, 0x20, 0x6e, 0x6f, 0x6e, 0x63, 0x65]

  /** An authenticated cipher: encrypt(key, nonce, plaintext) and decrypt(key, nonce,
      ciphertext), either of which may fail. */
  datatype Cipher = Cipher(encrypt: (seq<u8>, seq<u8>, seq<u8>) -> Option<seq<u8>>,
                           decrypt: (seq<u8>, seq<u8>, seq<u8>) -> Option<seq<u8>>)

  /** Decryption undoes encryption under the same key and nonce. */
  ghost predicate Inverts(c: Cipher)
  {
    forall key, nonce, text :: c.encrypt(key, nonce, text).Some? ==>
      c.decrypt(key, nonce, c.encrypt(key, nonce, text).value) == Some(text)
  }

  // ---------------------------------------------------------------------------
  // The output path

  /** Whether pat occurs in s. */
  predicate Contains(s: string, pat: string)
    decreases |s|
  {
    |pat| <= |s| && (s[..|pat|] == pat || (|s| > 0 && Contains(s[1..], pat)))
  }

  /** Rust's `str::replace`: every occurrence of pat, found left to right without overlap,
      replaced by rep. */
  function ReplaceAll(s: string, pat: string, rep: string): string
    requires |pat| > 0
    decreases |s|
  {
    if |s| < |pat| then s
    else if s[..|pat|] == pat then rep + ReplaceAll(s[|pat|..], pat, rep)
    else [s[0]] + ReplaceAll(s[1..], pat, rep)
  }

  /** Where `encode_command` saves the encoded image: ".jpg" becomes ".png", and then every
      ".png" becomes "-e.png". */
  function OutputPath(inpath: string): string
  {
    ReplaceAll(ReplaceAll(inpath, ".jpg", ".png"), ".png", "-e.png")
  }

  /** A string in which pat does not occur is left as it is. */
  lemma {:induction false} ReplaceAllAbsent(s: string, pat: string, rep: string)
    requires |pat| > 0 && !Contains(s, pat)
    ensures ReplaceAll(s, pat, rep) == s
  {
    if |s| >= |pat| {
      ReplaceAllAbsent(s[1..], pat, rep);
      assert s == [s[0]] + s[1..];
    }
  }

  /** A prefix free of pat is copied unchanged, provided no occurrence of pat can start in the
      prefix and run into the rest: the rest's first character occurs in pat only at its start. */
  lemma {:induction false} ReplaceAfterPlain(stem: string, tail: string, pat: string, rep: string)
    requires |pat| > 0 && |tail| > 0
    requires forall i | 1 <= i < |pat| :: pat[i] != tail[0]
    requires !Contains(stem, pat)
    ensures ReplaceAll(stem + tail, pat, rep) == stem + ReplaceAll(tail, pat, rep)
  {
    if |stem| == 0 {
      assert stem + tail == tail;
    } else if |stem + tail| < |pat| {
    } else {
      NoMatchAtStart(stem, tail, pat);
      assert (stem + tail)[1..] == stem[1..] + tail;
      ReplaceAfterPlain(stem[1..], tail, pat, rep);
    }
  }

  /** No occurrence of pat starts at the first character of stem + tail. */
  lemma NoMatchAtStart(stem: string, tail: string, pat: string)
    requires |pat| > 0 && |tail| > 0 && |stem| > 0 && |stem + tail| >= |pat|
    requires forall i | 1 <= i < |pat| :: pat[i] != tail[0]
    requires !Contains(stem, pat)
    ensures (stem + tail)[..|pat|] != pat
    ensures !Contains(stem[1..], pat)
  {
    var s := stem + tail;
    if |stem| >= |pat| {
      assert s[..|pat|] == stem[..|pat|];
    } else {
      assert s[|stem|] == tail[0] != pat[|stem|];
    }
  }

  /** An image called stem + ".png" or stem + ".jpg" is saved as stem + "-e.png", when the
      stem contains neither extension. */
  lemma OutputPathOfImage(stem: string, extension: string)
    requires extension == ".png" || extension == ".jpg"
    requires !Contains(stem, ".jpg") && !Contains(stem, ".png")
    ensures OutputPath(stem + extension) == stem + "-e.png"
  {
    ReplaceAfterPlain(stem, extension, ".jpg", ".png");
    assert ReplaceAll(".jpg", ".jpg", ".png") == ".png";
    assert ReplaceAll(".png", ".jpg", ".png") == ".png";
    ReplaceAfterPlain(stem, ".png", ".png", "-e.png");
    assert ReplaceAll(".png", ".png", "-e.png") == "-e.png";
  }

  /** A path with neither extension is its own output path: the encoded image is saved over
      the file it was read from. */
  lemma OutputPathOverwrites(inpath: string)
    requires !Contains(inpath, ".jpg") && !Contains(inpath, ".png")
    ensures OutputPath(inpath) == inpath
  {
    ReplaceAllAbsent(inpath, ".jpg", ".png");
    ReplaceAllAbsent(inpath, ".png", "-e.png");
  }

  // ---------------------------------------------------------------------------
  // encode_command

  /** How `encode_command` ends: it returns early when the image cannot be read, when the
      key is not 32 bytes or when encryption fails, and otherwise saves the encoded image. */
  datatype EncodeOutcome = ReadFailed | InvalidKey | EncryptionFailed | Saved(outpath: string)

  /** What `encode_command` embeds, or how it stops before embedding anything. */
  datatype Payload = Embed(bytes: seq<u8>) | Abort(outcome: EncodeOutcome)

  /** The bytes `encode_command` hides for the text data and the optional key: the text
      itself without a key; with a 32-byte key, its encryption under the fixed nonce. */
  function PayloadOf(data: seq<u8>, key: Option<seq<u8>>, cipher: Cipher): (p: Payload)
    ensures key.None? ==> p == Embed(data)
    ensures key.Some? && |key.value| != KEY_LENGTH ==> p == Abort(InvalidKey)
    ensures key.Some? && |key.value| == KEY_LENGTH ==>
              (p.Embed? <==> cipher.encrypt(key.value, NONCE, data).Some?)
    ensures p.Embed? && key.Some? ==> Some(p.bytes) == cipher.encrypt(key.value, NONCE, data)
    ensures p.Abort? ==> key.Some? && p.outcome != ReadFailed && !p.outcome.Saved?
  {
    match key
    case None => Embed(data)
    case Some(k) =>
      if |k| != KEY_LENGTH then Abort(InvalidKey)
      else match cipher.encrypt(k, NONCE, data)
        case None => Abort(EncryptionFailed)
        case Some(sealed) => Embed(sealed)
  }

  /** `encode_command`: reads the image, settles the payload, hides it and saves the result
      under OutputPath(inpath). The image is not touched unless the payload is embedded. */
  method EncodeCommand(inpath: string, data: seq<u8>, key: Option<seq<u8>>, loaded: Option<Rgba>,
                       cipher: Cipher)
    returns (outcome: EncodeOutcome)
    modifies if loaded.Some? then {loaded.value} else {}
    ensures loaded.None? ==> outcome == ReadFailed
    ensures loaded.Some? ==>
              match PayloadOf(data, key, cipher)
              case Abort(early) => outcome == early && unchanged(loaded.value)
              case Embed(bytes) =>
                outcome == Saved(OutputPath(inpath))
                && Scan(loaded.value) == EncodeScan(bytes, old(Scan(loaded.value)))
  {
    if loaded.None? {
      return ReadFailed;
    }
    var img := loaded.value;
    var payload := data;
    if key.Some? {
      if |key.value| != KEY_LENGTH {
        return InvalidKey;
      }
      var sealed := cipher.encrypt(key.value, NONCE, data);
      if sealed.None? {
        return EncryptionFailed;
      }
      payload := sealed.value;
    }
    Encode(payload, img);
    outcome := Saved(OutputPath(inpath));
  }

  // ---------------------------------------------------------------------------
  // decode_command

  /** The text `decode_command` returns for the text decode extracted: with no key, that
      text; with a key that is not 32 bytes, the invalid-key error; otherwise the decryption
      of the text's bytes under the fixed nonce, as UTF-8 or "Not UTF8", or the decryption
      error when decryption fails. */
  function Reply(data: seq<u8>, key: Option<seq<u8>>, cipher: Cipher): (text: seq<u8>)
    ensures key.None? ==> text == TextOf(data)
    ensures key.Some? && |key.value| != KEY_LENGTH ==> text == INVALID_KEY_ERROR
    ensures key.Some? && |key.value| == KEY_LENGTH && cipher.decrypt(key.value, NONCE, data).None? ==>
              text == DECRYPTION_ERROR
    ensures key.Some? && |key.value| == KEY_LENGTH && cipher.decrypt(key.value, NONCE, data).Some? ==>
              text == TextOf(cipher.decrypt(key.value, NONCE, data).value)
  {
    match key
    case None => TextOf(data)
    case Some(k) =>
      if |k| != KEY_LENGTH then INVALID_KEY_ERROR
      else match cipher.decrypt(k, NONCE, data)
        case None => DECRYPTION_ERROR
        case Some(plain) => TextOf(plain)
  }

  /** `decode_command`: reads the image, decodes it and unseals the text. */
  method DecodeCommand(loaded: Option<Rgba>, key: Option<seq<u8>>, cipher: Cipher) returns (text: seq<u8>)
    ensures loaded.None? ==> text == FILE_READING_ERROR
    ensures loaded.Some? ==> text == Reply(DecodedText(Scan(loaded.value)), key, cipher)
  {
    if loaded.None? {
      return FILE_READING_ERROR;
    }
    var data := Decode(loaded.value);
    text := Unseal(data, key, cipher);
  }

  /** decode_command after decoding: the key gate, the decryption under the fixed nonce and
      the conversion of the result to a `String`. */
  method Unseal(data: seq<u8>, key: Option<seq<u8>>, cipher: Cipher) returns (text: seq<u8>)
    ensures text == Reply(data, key, cipher)
  {
    var plain := data;
    if key.Some? {
      if |key.value| != KEY_LENGTH {
        return INVALID_KEY_ERROR;
      }
      var decrypted := cipher.decrypt(key.value, NONCE, data);
      if decrypted.None? {
        return DECRYPTION_ERROR;
      }
      plain := decrypted.value;
    }
    text := TextOf(plain);
  }

  // ---------------------------------------------------------------------------
  // Properties of the commands

  /** Without a key, text that fits the header and the image comes back from decode_command
      as it went into encode_command. */
  lemma PlainRoundTrip(data: seq<u8>, s: seq<Pixel>, cipher: Cipher)
    requires ValidUtf8(data)
    requires |data| < HEADER_RANGE && 8 * |data| <= |s| - 1
    ensures Reply(DecodedText(EncodeScan(PayloadOf(data, None, cipher).bytes, s)), None, cipher) == data
  {
    TextRoundTrip(data, s);
  }

  /** With a 32-byte key and a cipher whose decryption undoes its encryption, the text comes
      back when its ciphertext fits and happens to be valid UTF-8. */
  lemma KeyedRoundTrip(data: seq<u8>, key: seq<u8>, sealed: seq<u8>, s: seq<Pixel>, cipher: Cipher)
    requires Inverts(cipher) && ValidUtf8(data) && |key| == KEY_LENGTH
    requires cipher.encrypt(key, NONCE, data) == Some(sealed)
    requires ValidUtf8(sealed) && |sealed| < HEADER_RANGE && 8 * |sealed| <= |s| - 1
    ensures PayloadOf(data, Some(key), cipher) == Embed(sealed)
    ensures Reply(DecodedText(EncodeScan(sealed, s)), Some(key), cipher) == data
  {
    TextRoundTrip(sealed, s);
    assert cipher.decrypt(key, NONCE, cipher.encrypt(key, NONCE, data).value) == Some(data);
  }

  /** decode_command decrypts the text decode returns, not the extracted bytes: a ciphertext
      that is not valid UTF-8 reaches the cipher as "Not UTF8", whatever the message was. */
  lemma KeyedDecodeLosesCiphertext(data: seq<u8>, key: seq<u8>, sealed: seq<u8>, s: seq<Pixel>, cipher: Cipher)
    requires |key| == KEY_LENGTH && cipher.encrypt(key, NONCE, data) == Some(sealed)
    requires !ValidUtf8(sealed) && |sealed| < HEADER_RANGE && 8 * |sealed| <= |s| - 1
    ensures PayloadOf(data, Some(key), cipher) == Embed(sealed)
    ensures Reply(DecodedText(EncodeScan(sealed, s)), Some(key), cipher) == Reply(NOT_UTF8, Some(key), cipher)
  {
    RoundTrip(sealed, s);
  }
}
