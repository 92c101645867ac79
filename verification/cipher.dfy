/**
 * The keystream obfuscation of Kairosoft archives: byte i of a buffer is
 * XOR'd with byte (i mod key length) of a repeating key. It is its own
 * inverse.
 */
module KeystreamCipher {
  import opened BigEndian

  /** The buffer after every byte has been XOR'd with the repeating key (KairosoftArchive.cs:9-15). */
  function Crypt(data: seq<byte>, key: seq<byte>): (r: seq<byte>)
    requires |key| > 0
    ensures |r| == |data|
  {
    seq(|data|, i requires 0 <= i < |data| => data[i] ^ key[i % |key|])
  }

  /** Applying the cipher twice with the same key restores the buffer. */
  lemma CryptInvolution(data: seq<byte>, key: seq<byte>)
    requires |key| > 0
    ensures Crypt(Crypt(data, key), key) == data
  {
    var once := Crypt(data, key);
    var twice := Crypt(once, key);
    forall i | 0 <= i < |data|
      ensures twice[i] == data[i]
    {
      XorTwice(data[i], key[i % |key|]);
    }
  }

  lemma XorTwice(x: byte, k: byte)
    ensures (x ^ k) ^ k == x
  {
  }

  /** CryptBytes: the in-place loop over the buffer. */
  method CryptBytes(data: array<byte>, key: seq<byte>)
    requires |key| > 0
    modifies data
    ensures data[..] == Crypt(old(data[..]), key)
  {
    var i := 0;
    while i < data.Length
      invariant 0 <= i <= data.Length
      invariant forall j :: 0 <= j < i ==> data[j] == old(data[j]) ^ key[j % |key|]
      invariant forall j :: i <= j < data.Length ==> data[j] == old(data[j])
    {
      data[i] := data[i] ^ key[i % |key|];
      i := i + 1;
    }
  }
}
