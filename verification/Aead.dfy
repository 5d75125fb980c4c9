/** AES-GCM under a fixed key, as an abstract pair of functions of nonce, text and associated data. */
module Aead {
  import opened Common

  const TAG_LENGTH := 16
  const IV_LENGTH := 12

  datatype Cipher = Cipher(seal: (Bytes, Bytes, Bytes) -> Bytes, open: (Bytes, Bytes, Bytes) -> Option<Bytes>)

  /** Opening a sealed text gives the text back; the tag adds 16 bytes. */
  ghost predicate Correct(c: Cipher) {
    forall iv: Bytes, text: Bytes, aad: Bytes ::
      |c.seal(iv, text, aad)| == |text| + TAG_LENGTH && c.open(iv, c.seal(iv, text, aad), aad) == Some(text)
  }

  /** The ideal cipher after one frame was sealed: that frame opens, and nothing else does. */
  ghost predicate OpensOnly(c: Cipher, iv: Bytes, text: Bytes, aad: Bytes) {
    && |c.seal(iv, text, aad)| == |text| + TAG_LENGTH
    && c.open(iv, c.seal(iv, text, aad), aad) == Some(text)
    && forall iv': Bytes, box: Bytes, aad': Bytes ::
         c.open(iv', box, aad').Some? ==> iv' == iv && box == c.seal(iv, text, aad) && aad' == aad
  }

  /** A cipher that only appends a zero tag: the hypotheses can be met. */
  const NoSecrecy := Cipher(
    (iv, text, aad) => text + seq(TAG_LENGTH, _ => 0),
    (iv, box, aad) => if |box| >= TAG_LENGTH then Some(box[..|box| - TAG_LENGTH]) else None)

  lemma NoSecrecyIsCorrect()
    ensures Correct(NoSecrecy)
  {
    forall iv: Bytes, text: Bytes, aad: Bytes
      ensures NoSecrecy.open(iv, NoSecrecy.seal(iv, text, aad), aad) == Some(text)
    {
      var box := NoSecrecy.seal(iv, text, aad);
      assert box[..|box| - TAG_LENGTH] == text;
    }
  }

  /** A cipher that seals one text as `box` and opens nothing else: the ideal hypothesis can be met, for every box. */
  function OnlyThis(iv: Bytes, text: Bytes, aad: Bytes, box: Bytes): Cipher {
    Cipher(
      (iv', text', aad') => if iv' == iv && text' == text && aad' == aad then box else text' + seq(TAG_LENGTH, _ => 0),
      (iv', box', aad') => if iv' == iv && box' == box && aad' == aad then Some(text) else None)
  }

  lemma OnlyThisOpensOnly(iv: Bytes, text: Bytes, aad: Bytes, box: Bytes)
    requires |box| == |text| + TAG_LENGTH
    ensures OpensOnly(OnlyThis(iv, text, aad, box), iv, text, aad)
    ensures OnlyThis(iv, text, aad, box).seal(iv, text, aad) == box
  {
  }
}
