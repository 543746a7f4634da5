/** The ratchet key chain and the choice of the slot that carries the real envelope. */
module PathEngine {
  import opened ByteCodec
  import opened Symbols
  import opened Wrappers

  datatype PathEngineError = InvalidPathCount

  function NewRatchetKey(material: Bytes): Key {
    Key(Root(material), 0)
  }

  function DuplicateForTargetUse(key: Key): Key {
    key
  }

  function DeriveNext(key: Key): Key {
    Key(key.seed, key.pos + 1)
  }

  function SelectSlot(mac: Mac, key: Key, messageId: Bytes, nPaths: nat): (r: Result<nat, PathEngineError>)
    ensures r.Ok? <==> nPaths > 0
    ensures r.Ok? ==> r.value < nPaths
  {
    if nPaths == 0 then Err(InvalidPathCount)
    else Ok(FromBigEndian(mac(key, messageId)[..8]) % nPaths)
  }

  /** The slot is the first eight bytes of the digest of the message id, most significant first,
      modulo the number of paths. */
  lemma SlotFromDigest(mac: Mac, key: Key, messageId: Bytes, nPaths: nat)
    requires nPaths > 0
    ensures var d := mac(key, messageId);
            SelectSlot(mac, key, messageId, nPaths)
            == Ok((d[0] as int * 0x100_0000_0000_0000 + d[1] as int * 0x1_0000_0000_0000
                   + d[2] as int * 0x100_0000_0000 + d[3] as int * 0x1_0000_0000
                   + d[4] as int * 0x100_0000 + d[5] as int * 0x1_0000 + d[6] as int * 0x100 + d[7]) % nPaths)
  {
    EightDigits(mac(key, messageId)[..8]);
  }

  /** The key reached from `key` by `steps` ratchet derivations. */
  function Advance(key: Key, steps: nat): (k: Key)
    ensures k == Key(key.seed, key.pos + steps)
    decreases steps
  {
    if steps == 0 then key else DeriveNext(Advance(key, steps - 1))
  }
}
