/** The on-disk layout of a ciphertext file: a 16-byte nonce, a 16-byte
    authentication tag, and the ciphertext body that fills the rest. */
module Layout {

  type byte = x: int | 0 <= x < 256

  const NonceLength: nat := 16
  const TagLength: nat := 16
  const HeaderLength: nat := NonceLength + TagLength

  /** The three fields read from a ciphertext file, in file order. */
  datatype Container = Container(nonce: seq<byte>, tag: seq<byte>, body: seq<byte>)
  {
    /** Nonce and tag both have their full width. */
    predicate WellFormed()
    {
      |nonce| == NonceLength && |tag| == TagLength
    }

    /** The file these fields occupy. */
    function Bytes(): seq<byte>
    {
      nonce + tag + body
    }

    /** The shape of three successive reads: a read only comes back short when
        the file is exhausted, so nothing follows a short field. */
    predicate ReadShape()
    {
      && |nonce| <= NonceLength
      && |tag| <= TagLength
      && (|nonce| < NonceLength ==> tag == [])
      && (|tag| < TagLength ==> body == [])
    }
  }

  function Min(a: int, b: int): int
  {
    if a <= b then a else b
  }

  /** Reads the nonce, then the tag, then everything that is left. A file
      shorter than the header yields short fields rather than an error. */
  function Split(file: seq<byte>): (c: Container)
    ensures c.Bytes() == file
    ensures c.ReadShape()
  {
    var n := Min(NonceLength, |file|);
    var h := Min(HeaderLength, |file|);
    assert file[..n] + file[n..h] + file[h..] == file;
    Container(file[..n], file[n..h], file[h..])
  }

  /** The read shape pins the split down: any container with that shape
      whose bytes make up the file is the one Split returns. */
  lemma SplitUnique(file: seq<byte>, c: Container)
    requires c.ReadShape()
    requires c.Bytes() == file
    ensures c == Split(file)
  {
  }

  /** Splitting the bytes of a well-formed container gives it back. */
  lemma SplitBytes(c: Container)
    requires c.WellFormed()
    ensures Split(c.Bytes()) == c
  {
  }

  /** The header is complete exactly when the file holds at least 32 bytes;
      shorter files still split, into a short nonce or tag and an empty body. */
  lemma SplitWellFormedIff(file: seq<byte>)
    ensures Split(file).WellFormed() <==> |file| >= HeaderLength
    ensures |file| < HeaderLength ==> Split(file).body == []
  {
  }
}
