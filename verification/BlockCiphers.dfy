/** Block ciphers as parameters: any function on 16-byte blocks, with or without an inverse. */
module BlockCiphers {
  import opened ByteStrings

  type Cipher = Bytes -> Bytes

  ghost predicate BlockCipher(e: Cipher) {
    forall b: Bytes :: |b| == 16 ==> |e(b)| == 16
  }

  /** `d` undoes `e` on blocks. */
  ghost predicate Undoes(d: Cipher, e: Cipher) {
    BlockCipher(d) && BlockCipher(e) && forall b: Bytes :: |b| == 16 ==> d(e(b)) == b
  }
}
