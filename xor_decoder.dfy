/**
 * The XOR decoder: the in-memory part of `decrypt_video`. The leading
 * `min(|keystream|, |encrypted|)` bytes are XORed with the keystream, the rest
 * is copied, and the result is judged by looking for the `ftyp` File Type Box
 * tag (ISO/IEC 14496-12, section 4.3) in its first 32 bytes.
 */
module XorDecoder {
  import opened Wrappers

  // ---------------------------------------------------------------------------
  // Decryption
  // ---------------------------------------------------------------------------

  /**
   * `bytes(a ^ b for a, b in zip(x, y))`: pairs up the two sequences as far
   * as the shorter one goes.
   */
  function XorZip(x: seq<bv8>, y: seq<bv8>): (r: seq<bv8>)
    ensures |r| == Min(|x|, |y|)
    ensures forall i :: 0 <= i < |r| ==> r[i] == x[i] ^ y[i]
  {
    if x == [] || y == [] then []
    else
      var rest := XorZip(x[1..], y[1..]);
      assert forall i :: 1 <= i <= |rest| ==> x[i] == x[1..][i - 1] && y[i] == y[1..][i - 1];
      [x[0] ^ y[0]] + rest
  }

  /**
   * The decrypted buffer: the XORed prefix followed by the untouched rest of
   * the input. It is as long as the input, whatever the keystream's length;
   * byte `i` is XORed with keystream byte `i` exactly when the keystream
   * reaches that far, and copied otherwise.
   */
  function Decrypt(encrypted: seq<bv8>, keystream: seq<bv8>): (d: seq<bv8>)
    ensures |d| == |encrypted|
    ensures forall i :: 0 <= i < Min(|keystream|, |encrypted|) ==> d[i] == encrypted[i] ^ keystream[i]
    ensures forall i :: Min(|keystream|, |encrypted|) <= i < |encrypted| ==> d[i] == encrypted[i]
  {
    var n := Min(|keystream|, |encrypted|);
    XorZip(encrypted[..n], keystream) + encrypted[n..]
  }

  /** An empty keystream leaves the input exactly as it was. */
  lemma DecryptEmptyKeystream(encrypted: seq<bv8>)
    ensures Decrypt(encrypted, []) == encrypted
  {
  }

  /** Decrypting twice with the same keystream gives back the input. */
  lemma DecryptInvolution(encrypted: seq<bv8>, keystream: seq<bv8>)
    ensures Decrypt(Decrypt(encrypted, keystream), keystream) == encrypted
  {
    var d := Decrypt(encrypted, keystream);
    var dd := Decrypt(d, keystream);
    forall i | 0 <= i < |encrypted|
      ensures dd[i] == encrypted[i]
    {
      if i < Min(|keystream|, |encrypted|) {
        XorSelfInverse(encrypted[i], keystream[i]);
      }
    }
  }

  lemma XorSelfInverse(a: bv8, b: bv8)
    ensures (a ^ b) ^ b == a
  {
  }

  /** Only the first `|encrypted|` keystream bytes matter; the rest is never read. */
  lemma DecryptIgnoresKeystreamTail(encrypted: seq<bv8>, keystream: seq<bv8>, tail: seq<bv8>)
    requires |keystream| >= |encrypted|
    ensures Decrypt(encrypted, keystream + tail) == Decrypt(encrypted, keystream)
  {
    var d1 := Decrypt(encrypted, keystream + tail);
    var d2 := Decrypt(encrypted, keystream);
    forall i | 0 <= i < |encrypted|
      ensures d1[i] == d2[i]
    {
      assert (keystream + tail)[i] == keystream[i];
    }
  }

  /** A keystream at least as long as the input: the whole input is XORed. */
  lemma DecryptLongKeystream(encrypted: seq<bv8>, keystream: seq<bv8>)
    requires |keystream| >= |encrypted|
    ensures Decrypt(encrypted, keystream) == XorZip(encrypted, keystream[..|encrypted|])
  {
  }

  /** A keystream shorter than the input: everything from its end on is copied. */
  lemma DecryptShortKeystream(encrypted: seq<bv8>, keystream: seq<bv8>)
    requires |keystream| < |encrypted|
    ensures Decrypt(encrypted, keystream)[|keystream|..] == encrypted[|keystream|..]
    ensures Decrypt(encrypted, keystream)[..|keystream|] == XorZip(encrypted, keystream)
  {
  }

  // ---------------------------------------------------------------------------
  // Signature check
  // ---------------------------------------------------------------------------

  /** The ASCII bytes of `ftyp`. */
  const FTYP: seq<bv8> := [0x66, 0x74, 0x79, 0x70]

  /** How many leading bytes of the output are searched. */
  const WINDOW: nat := 32

  /** `needle` occurs in `hay` starting at offset `i`. */
  predicate MatchAt(hay: seq<bv8>, needle: seq<bv8>, i: int) {
    0 <= i && i + |needle| <= |hay| && hay[i..i + |needle|] == needle
  }

  /**
   * Python's `needle in hay` on bytes: true when the needle occurs at any
   * offset. The empty needle is in every buffer, and a needle longer than the
   * buffer is in none.
   */
  predicate Occurs(hay: seq<bv8>, needle: seq<bv8>): (b: bool)
    ensures b <==> exists i :: MatchAt(hay, needle, i)
    ensures needle == [] ==> b
    ensures |needle| > |hay| ==> !b
  {
    assert needle == [] ==> MatchAt(hay, needle, 0);
    exists i | 0 <= i <= |hay| :: MatchAt(hay, needle, i)
  }

  /** `hay.find(needle, start)`: the first offset from `start` on, or -1. */
  function FindFrom(hay: seq<bv8>, needle: seq<bv8>, start: nat): (r: int)
    ensures r == -1 || (start <= r && MatchAt(hay, needle, r))
    ensures r == -1 ==> forall i :: start <= i ==> !MatchAt(hay, needle, i)
    ensures r != -1 ==> forall i :: start <= i < r ==> !MatchAt(hay, needle, i)
    decreases |hay| - start
  {
    if start + |needle| > |hay| then -1
    else if hay[start..start + |needle|] == needle then start
    else FindFrom(hay, needle, start + 1)
  }

  /** `hay.find(needle)`: the first occurrence, or -1 when there is none. */
  function Find(hay: seq<bv8>, needle: seq<bv8>): (r: int)
    ensures r == -1 <==> !Occurs(hay, needle)
    ensures r != -1 ==> MatchAt(hay, needle, r) && forall i :: 0 <= i < r ==> !MatchAt(hay, needle, i)
  {
    FindFrom(hay, needle, 0)
  }

  /** A match in a prefix `hay[..n]` is a match in `hay` that ends within `n` bytes. */
  lemma PrefixMatch(hay: seq<bv8>, needle: seq<bv8>, n: nat, i: int)
    requires n <= |hay|
    ensures MatchAt(hay[..n], needle, i) <==> i + |needle| <= n && MatchAt(hay, needle, i)
  {
    if 0 <= i && i + |needle| <= n {
      assert hay[..n][i..i + |needle|] == hay[i..i + |needle|];
    }
  }

  lemma PrefixMatches(hay: seq<bv8>, needle: seq<bv8>, n: nat)
    requires n <= |hay|
    ensures forall i :: MatchAt(hay[..n], needle, i) <==> i + |needle| <= n && MatchAt(hay, needle, i)
  {
    forall i ensures MatchAt(hay[..n], needle, i) <==> i + |needle| <= n && MatchAt(hay, needle, i) {
      PrefixMatch(hay, needle, n, i);
    }
  }

  /** `ftyp` starts at offset `i` of `d` and ends inside the first 32 bytes. */
  predicate SignatureAt(d: seq<bv8>, i: int) {
    i + |FTYP| <= WINDOW && MatchAt(d, FTYP, i)
  }

  /**
   * The part of the output that is searched, `D[:32]`: the signature occurs in
   * it at offset `i` exactly when it occurs in the output there and ends
   * within the first 32 bytes.
   */
  function Window(d: seq<bv8>): (w: seq<bv8>)
    ensures |w| == Min(WINDOW, |d|) && w == d[..|w|]
    ensures forall i :: MatchAt(w, FTYP, i) <==> SignatureAt(d, i)
  {
    var n := Min(WINDOW, |d|);
    PrefixMatches(d, FTYP, n);
    d[..n]
  }

  /**
   * The signature check: `b'ftyp' in D[:32]`, then `D[:32].find(b'ftyp')`.
   * It finds an offset exactly when `ftyp` lies within the first
   * `min(32, |d|)` bytes, and the offset is the first such, at most 28.
   */
  function FindFtyp(d: seq<bv8>): (r: Option<nat>)
    ensures r.Some? <==> exists i :: SignatureAt(d, i)
    ensures r.Some? ==> SignatureAt(d, r.value) && r.value <= WINDOW - |FTYP|
    ensures r.Some? ==> forall i :: 0 <= i < r.value ==> !SignatureAt(d, i)
  {
    var w := Window(d);
    if Occurs(w, FTYP) then Some(Find(w, FTYP) as nat) else None
  }

  // ---------------------------------------------------------------------------
  // The whole in-memory step of `decrypt_video`
  // ---------------------------------------------------------------------------

  /** The decrypted bytes and the verdict `decrypt_video` returns. */
  datatype Decryption = Decryption(output: seq<bv8>, valid: bool)

  /**
   * `decrypt_video` on buffers already read. The output is always produced;
   * `saved` is whether writing it out succeeded (file I/O is not modelled).
   * The verdict is true exactly when the write succeeded and `ftyp` occurs in
   * the first 32 decrypted bytes: a missing signature is a flag, not an error.
   */
  function DecryptVideo(encrypted: seq<bv8>, keystream: seq<bv8>, saved: bool): (r: Decryption)
    ensures |r.output| == |encrypted|
    ensures Decrypt(r.output, keystream) == encrypted
    ensures r.valid <==> saved && exists i :: SignatureAt(r.output, i)
  {
    var d := Decrypt(encrypted, keystream);
    DecryptInvolution(encrypted, keystream);
    Decryption(d, saved && FindFtyp(d).Some?)
  }

  /**
   * A keystream built to decrypt a video's first eight bytes to four zero
   * bytes followed by `ftyp` makes the signature check report offset 4, the
   * place of the tag in an MP4 file's first box.
   */
  lemma ConstructedKeystreamFindsOffset4(encrypted: seq<bv8>, keystream: seq<bv8>)
    requires |encrypted| >= 8 && |keystream| >= 8
    requires keystream[..4] == encrypted[..4]
    requires forall i :: 4 <= i < 8 ==> keystream[i] == encrypted[i] ^ FTYP[i - 4]
    ensures FindFtyp(Decrypt(encrypted, keystream)) == Some(4)
  {
    var d := Decrypt(encrypted, keystream);
    forall i | 0 <= i < 4 ensures d[i] == 0 {
      assert keystream[i] == keystream[..4][i];
    }
    forall i | 4 <= i < 8 ensures d[i] == FTYP[i - 4] {
      XorSelfInverse(FTYP[i - 4], encrypted[i]);
      assert encrypted[i] ^ (encrypted[i] ^ FTYP[i - 4]) == FTYP[i - 4];
    }
    assert d[4..8] == FTYP;
    assert SignatureAt(d, 4);
    forall i | 0 <= i < 4 ensures !SignatureAt(d, i) {
      assert d[i..i + 4][0] == 0 != FTYP[0];
    }
  }
}
