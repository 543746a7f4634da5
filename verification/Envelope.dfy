/** The fixed 1024-byte envelope: nonce, ciphertext of a 996-byte frame, tag. */
module Envelopes {
  import opened ByteCodec
  import opened Symbols
  import opened Wrappers

  datatype EnvelopeError = PayloadTooLarge | DecryptionFailure | InvalidFormat

  const ENVELOPE_TOTAL_LEN: nat := 1024
  const MAX_PAYLOAD_SIZE: nat := 992
  const NONCE_LEN: nat := 12
  const CIPHERTEXT_LEN: nat := 996
  const PLAINTEXT_LEN: nat := 996
  const TAG_AT: nat := NONCE_LEN + CIPHERTEXT_LEN

  type Envelope = e: seq<Cell> | |e| == ENVELOPE_TOTAL_LEN
    witness seq(ENVELOPE_TOTAL_LEN, _ => Raw(0))

  type Nonce = b: Bytes | |b| == NONCE_LEN witness seq(NONCE_LEN, _ => 0)
  type Padding = b: Bytes | |b| == MAX_PAYLOAD_SIZE witness seq(MAX_PAYLOAD_SIZE, _ => 0)

  /** What one `seal` draws from the system generator; only the needed padding is used. */
  datatype SealRandom = SealRandom(nonce: Nonce, padding: Padding)

  // ------------------------------------------------------------------ specification

  /** The 996-byte plaintext: version, flags, big-endian length, payload, padding. */
  function Frame(payload: Bytes, padding: Padding): (plain: Bytes)
    requires |payload| <= MAX_PAYLOAD_SIZE
    ensures |plain| == PLAINTEXT_LEN
  {
    [1, 0] + ToBigEndian(|payload|, 2) + payload + padding[..MAX_PAYLOAD_SIZE - |payload|]
  }

  /** The payload a decrypted frame carries; the flags byte is not looked at. */
  function Parse(plain: Bytes): (r: Result<Bytes, EnvelopeError>)
    requires |plain| == PLAINTEXT_LEN
    ensures r.Ok? ==> |r.value| <= MAX_PAYLOAD_SIZE
  {
    var payloadLen := FromBigEndian(plain[2..4]);
    if plain[0] != 1 || payloadLen > MAX_PAYLOAD_SIZE then Err(InvalidFormat)
    else Ok(plain[4..4 + payloadLen])
  }

  predicate WellSized(box: Box) {
    |box.nonce| == NONCE_LEN && |box.plain| == PLAINTEXT_LEN
  }

  /** The envelope that carries a box. */
  function Wire(box: Box): (e: Envelope)
    requires WellSized(box)
  {
    Cells(box.nonce) + Ciphertext(box) + TagOf(box)
  }

  function SealBox(key: Key, payload: Bytes, aad: Bytes, rnd: SealRandom): (box: Box)
    requires |payload| <= MAX_PAYLOAD_SIZE
    ensures WellSized(box)
  {
    Box(key, rnd.nonce, aad, Frame(payload, rnd.padding))
  }

  function Sealed(key: Key, payload: Bytes, aad: Bytes, rnd: SealRandom): Result<Envelope, EnvelopeError> {
    if |payload| > MAX_PAYLOAD_SIZE then Err(PayloadTooLarge)
    else Ok(Wire(SealBox(key, payload, aad, rnd)))
  }

  function DecryptEnvelope(key: Key, envelope: Envelope, aad: Bytes): (r: Option<Bytes>)
    ensures r.Some? ==> |r.value| == PLAINTEXT_LEN
  {
    Decrypt(key, envelope[..NONCE_LEN], aad, envelope[NONCE_LEN..TAG_AT], envelope[TAG_AT..])
  }

  function Opened(key: Key, envelope: Envelope, aad: Bytes): (r: Result<Bytes, EnvelopeError>)
  {
    match DecryptEnvelope(key, envelope, aad)
    case None => Err(DecryptionFailure)
    case Some(plain) => Parse(plain)
  }

  // ------------------------------------------------------------------ operations

  method Seal(key: Key, payload: Bytes, aad: Bytes, rnd: SealRandom)
    returns (r: Result<Envelope, EnvelopeError>)
    ensures r == Sealed(key, payload, aad, rnd)
  {
    if |payload| > MAX_PAYLOAD_SIZE {
      return Err(PayloadTooLarge);
    }
    var envelope := new Cell[ENVELOPE_TOTAL_LEN](_ => Raw(0));
    CopyInto(envelope, 0, Cells(rnd.nonce));

    var plaintext := new Cell[PLAINTEXT_LEN](_ => Raw(0));
    FillPlaintext(plaintext, payload, rnd.padding);
    ValuesOfCells(Frame(payload, rnd.padding));

    var tag := EncryptInPlaceDetached(key, rnd.nonce, aad, plaintext);
    CopyInto(envelope, NONCE_LEN, plaintext[..]);
    CopyInto(envelope, TAG_AT, tag);
    Wipe(plaintext);
    assert envelope[..] == Wire(SealBox(key, payload, aad, rnd));
    r := Ok(envelope[..]);
  }

  lemma CellsOfFour(a: Bytes, b: Bytes, c: Bytes, d: Bytes)
    ensures Cells(a + b + c + d) == Cells(a) + Cells(b) + Cells(c) + Cells(d)
  {
  }

  lemma CellsOfFrame(payload: Bytes, padding: Padding)
    requires |payload| <= MAX_PAYLOAD_SIZE
    ensures Cells(Frame(payload, padding)) == Cells([1, 0]) + Cells(ToBigEndian(|payload|, 2)) + Cells(payload)
                                              + Cells(padding[..MAX_PAYLOAD_SIZE - |payload|])
  {
    CellsOfFour([1, 0], ToBigEndian(|payload|, 2), payload, padding[..MAX_PAYLOAD_SIZE - |payload|]);
  }

  method FillHeader(plaintext: array<Cell>, payloadLen: nat)
    requires plaintext.Length >= 4 && payloadLen < 0x1_0000
    modifies plaintext
    ensures plaintext[..4] == Cells([1, 0]) + Cells(ToBigEndian(payloadLen, 2))
  {
    var truncated := payloadLen % 0x1_0000;
    assert truncated == payloadLen;
    plaintext[0] := Raw(1);
    plaintext[1] := Raw(0);
    assert plaintext[..2] == Cells([1, 0]);
    CopyInto(plaintext, 2, Cells(ToBigEndian(truncated, 2)));
  }

  method FillMessage(plaintext: array<Cell>, payload: Bytes)
    requires plaintext.Length >= 4 + |payload| && |payload| < 0x1_0000
    modifies plaintext
    ensures plaintext[..4 + |payload|] == Cells([1, 0]) + Cells(ToBigEndian(|payload|, 2)) + Cells(payload)
  {
    FillHeader(plaintext, |payload|);
    CopyInto(plaintext, 4, Cells(payload));
  }

  method FillPadding(plaintext: array<Cell>, end: nat, padding: Bytes)
    requires end + |padding| == plaintext.Length
    modifies plaintext
    ensures plaintext[..] == old(plaintext[..end]) + Cells(padding)
  {
    if end < plaintext.Length {
      CopyInto(plaintext, end, Cells(padding));
    }
    assert plaintext[..plaintext.Length] == plaintext[..];
  }

  method FillPlaintext(plaintext: array<Cell>, payload: Bytes, padding: Padding)
    requires plaintext.Length == PLAINTEXT_LEN && |payload| <= MAX_PAYLOAD_SIZE
    modifies plaintext
    ensures plaintext[..] == Cells(Frame(payload, padding))
  {
    FillMessage(plaintext, payload);
    FillPadding(plaintext, 4 + |payload|, padding[..MAX_PAYLOAD_SIZE - |payload|]);
    CellsOfFrame(payload, padding);
  }

  method Open(key: Key, envelope: Envelope, aad: Bytes) returns (r: Result<Bytes, EnvelopeError>)
    ensures r == Opened(key, envelope, aad)
  {
    var nonceBytes := envelope[0..NONCE_LEN];
    var ciphertextBytes := envelope[NONCE_LEN..TAG_AT];
    var tagBytes := envelope[TAG_AT..ENVELOPE_TOTAL_LEN];
    var buffer := new Cell[PLAINTEXT_LEN](_ => Raw(0));
    CopyInto(buffer, 0, ciphertextBytes);
    assert buffer[..] == ciphertextBytes;

    var ok := DecryptInPlaceDetached(key, nonceBytes, aad, buffer, tagBytes);
    assert ok == DecryptEnvelope(key, envelope, aad).Some?;
    if !ok {
      return Err(DecryptionFailure);
    }
    ghost var plain := DecryptEnvelope(key, envelope, aad).value;
    assert buffer[..] == Cells(plain);
    if buffer[0] != Raw(1) {
      Wipe(buffer);
      return Err(InvalidFormat);
    }
    assert Values(buffer[2..4]) == plain[2..4];
    var payloadLen := FromBigEndian(Values(buffer[2..4]));
    if payloadLen > MAX_PAYLOAD_SIZE {
      Wipe(buffer);
      return Err(InvalidFormat);
    }
    var payload := Values(buffer[4..4 + payloadLen]);
    assert payload == plain[4..4 + payloadLen];
    Wipe(buffer);
    r := Ok(payload);
  }

  method Wipe(buffer: array<Cell>)
    modifies buffer
    ensures forall i :: 0 <= i < buffer.Length ==> buffer[i] == Raw(0)
  {
    forall i | 0 <= i < buffer.Length {
      buffer[i] := Raw(0);
    }
  }

  // ------------------------------------------------------------------ properties

  lemma ParseOfFrame(payload: Bytes, padding: Padding)
    requires |payload| <= MAX_PAYLOAD_SIZE
    ensures Parse(Frame(payload, padding)) == Ok(payload)
  {
    var plain := Frame(payload, padding);
    assert plain[2..4] == ToBigEndian(|payload|, 2);
    assert Pow256(2) == 0x1_0000;
    DecodeEncode(|payload|, 2);
    assert plain[4..4 + |payload|] == payload;
  }

  lemma FrameWithItsPadding(plain: Bytes) returns (padding: Padding)
    requires |plain| == PLAINTEXT_LEN && Parse(plain).Ok? && plain[1] == 0
    ensures Frame(Parse(plain).value, padding) == plain
  {
    var payload := Parse(plain).value;
    var rest := plain[4 + |payload|..];
    padding := rest + seq(|payload|, _ => 0);
    EncodeDecode(plain[2..4]);
    assert padding[..MAX_PAYLOAD_SIZE - |payload|] == rest;
    assert plain == plain[..2] + plain[2..4] + plain[4..4 + |payload|] + rest;
    assert plain[..2] == [1, 0];
  }

  /** A parsed frame is one that `Seal` could have built exactly when its flags byte is zero. */
  lemma ParsedFrameIsBuildable(plain: Bytes)
    requires |plain| == PLAINTEXT_LEN && Parse(plain).Ok?
    ensures plain[1] == 0 <==> exists padding: Padding :: Frame(Parse(plain).value, padding) == plain
  {
    if plain[1] == 0 {
      var padding := FrameWithItsPadding(plain);
    }
  }

  lemma SlicesOfWire(box: Box)
    requires WellSized(box)
    ensures Wire(box)[..NONCE_LEN] == Cells(box.nonce)
    ensures Wire(box)[NONCE_LEN..TAG_AT] == Ciphertext(box)
    ensures Wire(box)[TAG_AT..] == TagOf(box)
  {
  }

  /** An envelope decrypts to `plain` exactly when it is, cell for cell, the envelope of a box
      made under that key and associated data over `plain`. */
  lemma DecryptsExactlyItsBox(key: Key, envelope: Envelope, aad: Bytes, plain: Bytes)
    ensures DecryptEnvelope(key, envelope, aad) == Some(plain)
       <==> exists box :: WellSized(box) && box.key == key && box.aad == aad && box.plain == plain
                          && envelope == Wire(box)
  {
    if DecryptEnvelope(key, envelope, aad) == Some(plain) {
      var box := envelope[NONCE_LEN].box;
      assert |Cells(box.nonce)| == NONCE_LEN;
      assert envelope == envelope[..NONCE_LEN] + envelope[NONCE_LEN..TAG_AT] + envelope[TAG_AT..];
      assert WellSized(box) && envelope == Wire(box);
    }
    forall box | WellSized(box) && box.key == key && box.aad == aad && box.plain == plain && envelope == Wire(box)
      ensures DecryptEnvelope(key, envelope, aad) == Some(plain)
    {
      WireDecrypts(box, key, aad);
    }
  }

  lemma WireDecrypts(box: Box, key: Key, aad: Bytes)
    requires WellSized(box)
    ensures DecryptEnvelope(key, Wire(box), aad)
         == if key == box.key && aad == box.aad then Some(box.plain) else None
  {
    SlicesOfWire(box);
    assert Wire(box)[NONCE_LEN..TAG_AT][0] == Ct(box, 0);
  }

  /** `Open` undoes `Seal` under the same key and associated data, and fails under any other. */
  lemma OpenOfSeal(key: Key, payload: Bytes, aad: Bytes, rnd: SealRandom, key': Key, aad': Bytes)
    requires |payload| <= MAX_PAYLOAD_SIZE
    ensures Opened(key', Sealed(key, payload, aad, rnd).value, aad')
         == if key' == key && aad' == aad then Ok(payload) else Err(DecryptionFailure)
  {
    WireDecrypts(SealBox(key, payload, aad, rnd), key', aad');
    ParseOfFrame(payload, rnd.padding);
  }

  lemma FrameLayout(payload: Bytes, padding: Padding)
    requires |payload| <= MAX_PAYLOAD_SIZE
    ensures var plain := Frame(payload, padding);
            && plain[0] == 1 && plain[1] == 0
            && plain[2] as int * 256 + plain[3] == |payload|
            && plain[4..4 + |payload|] == payload
            && plain[4 + |payload|..] == padding[..MAX_PAYLOAD_SIZE - |payload|]
  {
    var plain := Frame(payload, padding);
    assert plain[2..4] == ToBigEndian(|payload|, 2);
    assert Pow256(2) == 0x1_0000;
    DecodeEncode(|payload|, 2);
    TwoDigits(plain[2..4]);
  }

  /** Byte by byte, what `seal` answers: up to 992 bytes, the drawn nonce, and then nothing but the
      one box under that nonce whose plaintext is version, flags, length, payload and padding. */
  lemma SealedExactly(key: Key, payload: Bytes, aad: Bytes, rnd: SealRandom) returns (plain: Bytes)
    ensures Sealed(key, payload, aad, rnd) == Err(PayloadTooLarge) <==> |payload| > 992
    ensures Sealed(key, payload, aad, rnd).Ok? <==> |payload| <= 992
    ensures |payload| <= 992 ==>
              var envelope := Sealed(key, payload, aad, rnd).value;
              && |envelope| == 1024 && envelope[..12] == Cells(rnd.nonce)
              && (forall i :: 12 <= i < 1024 ==> !envelope[i].Raw? && envelope[i].box == Box(key, rnd.nonce, aad, plain))
              && DecryptEnvelope(key, envelope, aad) == Some(plain)
              && |plain| == 996 && plain[0] == 1 && plain[1] == 0
              && plain[2] as int * 256 + plain[3] == |payload|
              && plain[4..4 + |payload|] == payload
              && plain[4 + |payload|..] == rnd.padding[..992 - |payload|]
  {
    plain := [];
    if |payload| <= 992 {
      var box := SealBox(key, payload, aad, rnd);
      plain := box.plain;
      FrameLayout(payload, rnd.padding);
      SlicesOfWire(box);
      WireDecrypts(box, key, aad);
      forall i | 12 <= i < 1024 ensures !Wire(box)[i].Raw? && Wire(box)[i].box == box {
        CellNamesItsBox(box, box, i);
      }
    }
  }

  /** Byte by byte, what `open` answers to the envelope of any box. */
  lemma OpenedExactly(box: Box, key: Key, aad: Bytes)
    requires WellSized(box)
    ensures var plain := box.plain;
            Opened(key, Wire(box), aad)
            == if key != box.key || aad != box.aad then Err(DecryptionFailure)
               else if plain[0] != 1 || plain[2] as int * 256 + plain[3] > 992 then Err(InvalidFormat)
               else Ok(plain[4..4 + plain[2] as int * 256 + plain[3]])
  {
    WireDecrypts(box, key, aad);
    TwoDigits(box.plain[2..4]);
  }

  /** Overwriting any one cell of a sealed envelope with a different one makes it undecryptable. */
  lemma TamperingIsDetected(box: Box, at: nat, cell: Cell, key: Key, aad: Bytes)
    requires WellSized(box) && at < ENVELOPE_TOTAL_LEN && cell != Wire(box)[at]
    ensures Opened(key, Wire(box)[at := cell], aad) == Err(DecryptionFailure)
  {
    var envelope: Envelope := Wire(box)[at := cell];
    if DecryptEnvelope(key, envelope, aad).Some? {
      DecryptsExactlyItsBox(key, envelope, aad, DecryptEnvelope(key, envelope, aad).value);
      var other :| WellSized(other) && envelope == Wire(other);
      // One of the first two ciphertext cells is untouched, and it names the box.
      CellNamesItsBox(box, other, NONCE_LEN);
      CellNamesItsBox(box, other, NONCE_LEN + 1);
      assert false;
    }
  }

  /** The cells of an envelope past its nonce name the box they belong to. */
  lemma CellNamesItsBox(box: Box, other: Box, at: nat)
    requires WellSized(box) && WellSized(other) && at < ENVELOPE_TOTAL_LEN
    ensures Wire(box)[at].Raw? <==> at < NONCE_LEN
    ensures at >= NONCE_LEN ==> Wire(box)[at].box == box
    ensures at >= NONCE_LEN && Wire(box)[at] == Wire(other)[at] ==> box == other
  {
  }
}
