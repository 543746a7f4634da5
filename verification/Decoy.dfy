/** Decoy envelopes, and the placement of the real envelope among them. */
module Decoys {
  import opened ByteCodec
  import opened Envelopes
  import opened Symbols
  import opened Wrappers

  datatype DecoyError = InvalidPathCount | InvalidSlotIndex | SealFailure

  type DecoyPayload = b: Bytes | |b| == 128 witness seq(128, _ => 0)

  /** What one decoy draws from the system generator; draw `keyDraw` becomes its key. */
  datatype DecoyRandom = DecoyRandom(keyDraw: nat, payload: DecoyPayload, seal: SealRandom)

  function DecoyKey(rnd: DecoyRandom): Key {
    Key(Random(rnd.keyDraw), 0)
  }

  function DecoyBox(aad: Bytes, rnd: DecoyRandom): (box: Box)
    ensures WellSized(box)
  {
    SealBox(DecoyKey(rnd), rnd.payload, aad, rnd.seal)
  }

  function SlotAt(i: nat, genuine: Envelope, validSlot: nat, aad: Bytes, rnd: nat -> DecoyRandom): Envelope {
    if i == validSlot then genuine else Wire(DecoyBox(aad, rnd(i)))
  }

  function Slots(genuine: Envelope, validSlot: nat, nPaths: nat, aad: Bytes, rnd: nat -> DecoyRandom)
    : (slots: seq<Envelope>)
    ensures |slots| == nPaths
  {
    seq(nPaths, i requires 0 <= i => SlotAt(i, genuine, validSlot, aad, rnd))
  }

  function MultiPathSlots(genuine: Envelope, validSlot: nat, nPaths: nat, aad: Bytes, rnd: nat -> DecoyRandom)
    : (r: Result<seq<Envelope>, DecoyError>)
  {
    if nPaths == 0 then Err(InvalidPathCount)
    else if validSlot >= nPaths then Err(InvalidSlotIndex)
    else Ok(Slots(genuine, validSlot, nPaths, aad, rnd))
  }

  method GenerateDecoy(aad: Bytes, rnd: DecoyRandom) returns (r: Result<Envelope, DecoyError>)
    ensures r == Ok(Wire(DecoyBox(aad, rnd)))
  {
    var sealed := Seal(DecoyKey(rnd), rnd.payload, aad, rnd.seal);
    match sealed
    case Ok(envelope) => r := Ok(envelope);
    case Err(_) => r := Err(SealFailure);
  }

  method GenerateMultiPathSlots(genuine: Envelope, validSlot: nat, nPaths: nat, aad: Bytes, rnd: nat -> DecoyRandom)
    returns (r: Result<seq<Envelope>, DecoyError>)
    ensures r == MultiPathSlots(genuine, validSlot, nPaths, aad, rnd)
  {
    if nPaths == 0 {
      return Err(InvalidPathCount);
    }
    if validSlot >= nPaths {
      return Err(InvalidSlotIndex);
    }
    var slots: seq<Envelope> := [];
    for slotIdx := 0 to nPaths
      invariant slots == Slots(genuine, validSlot, nPaths, aad, rnd)[..slotIdx]
    {
      if slotIdx == validSlot {
        slots := slots + [genuine];
      } else {
        var decoy := GenerateDecoy(aad, rnd(slotIdx));
        match decoy
        case Ok(envelope) => slots := slots + [envelope];
        case Err(_) => assert false;
      }
    }
    assert slots == Slots(genuine, validSlot, nPaths, aad, rnd);
    r := Ok(slots);
  }

  /** Among the slots around a box sealed under a ratchet key, the box's own slot opens under that
      key and associated data, and no decoy does, whatever the generator drew. */
  lemma OnlyTheValidSlotOpens(box: Box, validSlot: nat, nPaths: nat, aad: Bytes, rnd: nat -> DecoyRandom, slot: nat)
    requires WellSized(box) && box.key.seed.Root? && box.aad == aad
    requires validSlot < nPaths && slot < nPaths
    ensures DecryptEnvelope(box.key, Slots(Wire(box), validSlot, nPaths, aad, rnd)[slot], aad)
         == if slot == validSlot then Some(box.plain) else None
  {
    if slot == validSlot {
      WireDecrypts(box, box.key, aad);
    } else {
      WireDecrypts(DecoyBox(aad, rnd(slot)), box.key, aad);
    }
  }

  /** The slots in full: which arguments are refused, where the genuine envelope is, and that every
      other slot is sealed with that slot's own draws: key, nonce and 128 bytes of payload. */
  lemma SlotsExactly(genuine: Envelope, validSlot: nat, nPaths: nat, aad: Bytes, rnd: nat -> DecoyRandom, i: nat)
    ensures var r := MultiPathSlots(genuine, validSlot, nPaths, aad, rnd);
            && (r == Err(InvalidPathCount) <==> nPaths == 0)
            && (r == Err(InvalidSlotIndex) <==> nPaths > 0 && validSlot >= nPaths)
            && (r.Ok? <==> validSlot < nPaths)
            && (r.Ok? ==> |r.value| == nPaths && r.value[validSlot] == genuine)
    ensures var r := MultiPathSlots(genuine, validSlot, nPaths, aad, rnd);
            r.Ok? && i < nPaths && i != validSlot ==>
              && r.value[i][..12] == Cells(rnd(i).seal.nonce)
              && Opened(Key(Random(rnd(i).keyDraw), 0), r.value[i], aad) == Ok(rnd(i).payload)
  {
    if validSlot < nPaths && i < nPaths && i != validSlot {
      SlicesOfWire(DecoyBox(aad, rnd(i)));
      DecoyOpensOnlyUnderItsOwnKey(aad, rnd(i), DecoyKey(rnd(i)), aad);
    }
  }

  /** A decoy opens under its own discarded key, and under no other key and no other associated data. */
  lemma DecoyOpensOnlyUnderItsOwnKey(aad: Bytes, rnd: DecoyRandom, key: Key, aad': Bytes)
    ensures Opened(key, Wire(DecoyBox(aad, rnd)), aad')
         == if key == DecoyKey(rnd) && aad' == aad then Ok(rnd.payload) else Err(DecryptionFailure)
  {
    OpenOfSeal(DecoyKey(rnd), rnd.payload, aad, rnd.seal, key, aad');
  }
}
