/**
 The symbolic cryptography of the channel.

 Keys are terms: a seed (a root key, or one draw of the random generator) and the
 number of ratchet steps taken from it.  A box is what one AEAD encryption produced.
 Every byte on the wire is a cell: a plain byte, or one byte of the ciphertext or of
 the tag of some box.  Two cells of different boxes are never equal, so a decryption
 succeeds exactly on the untouched ciphertext and tag of a box made under the same
 key, nonce and associated data (AEAD, section 2.8 of RFC 8439).
 */
module Symbols {
  import opened ByteCodec
  import opened Wrappers

  datatype Seed = Root(material: Bytes) | Random(draw: nat)

  datatype Key = Key(seed: Seed, pos: nat)

  datatype Box = Box(key: Key, nonce: Bytes, aad: Bytes, plain: Bytes)

  datatype Cell = Raw(value: byte) | Ct(box: Box, index: nat) | Tag(box: Box, index: nat)

  const TAG_LEN: nat := 16

  /** A keyed digest: HMAC-SHA256 is some function of this type. */
  type Digest = b: Bytes | |b| == 32 witness seq(32, _ => 0)
  type Mac = (Key, Bytes) -> Digest

  function Cells(b: Bytes): (c: seq<Cell>)
    ensures |c| == |b|
  {
    seq(|b|, i requires 0 <= i < |b| => Raw(b[i]))
  }

  predicate AllRaw(c: seq<Cell>) {
    forall i :: 0 <= i < |c| ==> c[i].Raw?
  }

  function Values(c: seq<Cell>): (b: Bytes)
    requires AllRaw(c)
    ensures |b| == |c|
  {
    seq(|c|, i requires 0 <= i < |c| => c[i].value)
  }

  lemma ValuesOfCells(b: Bytes)
    ensures AllRaw(Cells(b)) && Values(Cells(b)) == b
  {
  }

  function Ciphertext(box: Box): (c: seq<Cell>)
    ensures |c| == |box.plain|
  {
    seq(|box.plain|, i requires 0 <= i => Ct(box, i))
  }

  function TagOf(box: Box): (c: seq<Cell>)
    ensures |c| == TAG_LEN
  {
    seq(TAG_LEN, i requires 0 <= i => Tag(box, i))
  }

  /** What decryption recovers from a nonce, a ciphertext and a tag, if it authenticates them. */
  function Decrypt(key: Key, nonce: seq<Cell>, aad: Bytes, ct: seq<Cell>, tag: seq<Cell>): (r: Option<Bytes>)
    ensures r.Some? ==> |r.value| == |ct|
  {
    if ct != [] && ct[0].Ct? then
      var box := ct[0].box;
      if box.key == key && Cells(box.nonce) == nonce && box.aad == aad
         && ct == Ciphertext(box) && tag == TagOf(box)
      then Some(box.plain) else None
    else None
  }

  /** `encrypt_in_place_detached`: the buffer of plain bytes becomes the ciphertext. */
  method EncryptInPlaceDetached(key: Key, nonce: Bytes, aad: Bytes, buffer: array<Cell>) returns (tag: seq<Cell>)
    requires AllRaw(buffer[..])
    modifies buffer
    ensures buffer[..] == Ciphertext(Box(key, nonce, aad, old(Values(buffer[..]))))
    ensures tag == TagOf(Box(key, nonce, aad, old(Values(buffer[..]))))
  {
    var box := Box(key, nonce, aad, Values(buffer[..]));
    forall i | 0 <= i < buffer.Length {
      buffer[i] := Ct(box, i);
    }
    tag := TagOf(box);
  }

  /** `decrypt_in_place_detached`: the buffer becomes the plaintext, or stays as it was. */
  method DecryptInPlaceDetached(key: Key, nonce: seq<Cell>, aad: Bytes, buffer: array<Cell>, tag: seq<Cell>)
    returns (ok: bool)
    modifies buffer
    ensures ok == old(Decrypt(key, nonce, aad, buffer[..], tag)).Some?
    ensures buffer[..] == old(match Decrypt(key, nonce, aad, buffer[..], tag)
                              case Some(plain) => Cells(plain)
                              case None => buffer[..])
  {
    match Decrypt(key, nonce, aad, buffer[..], tag)
    case Some(plain) =>
      forall i | 0 <= i < buffer.Length {
        buffer[i] := Raw(plain[i]);
      }
      ok := true;
    case None =>
      ok := false;
  }
}
