/** The stored form of a list of block hashes: a 64-bit little-endian count, then 32 bytes each. */
module HashSerialization {
  import opened Basics

  type byte = n: nat | n < 256

  const HASHES_LENGTH_SIZE := 8
  const DOMAIN_HASH_SIZE := 32

  type Hash = h: seq<byte> | |h| == DOMAIN_HASH_SIZE witness seq(DOMAIN_HASH_SIZE, _ => 0)

  /** `OutOfBounds`: the count itself is cut off, and slicing it out panics. */
  datatype Error = OutOfBounds | UnexpectedEof

  datatype Result<T> = Ok(value: T) | Err(error: Error)

  /** The low `k` bytes of `n`, least significant first. */
  function LittleEndian(n: nat, k: nat): (s: seq<byte>)
    ensures |s| == k
  {
    if k == 0 then [] else [n % 256] + LittleEndian(n / 256, k - 1)
  }

  function FromLittleEndian(s: seq<byte>): nat {
    if |s| == 0 then 0 else s[0] + 256 * FromLittleEndian(s[1..])
  }

  function Concat(hashes: seq<Hash>): (s: seq<byte>)
    ensures |s| == DOMAIN_HASH_SIZE * |hashes|
  {
    if |hashes| == 0 then [] else Concat(hashes[..|hashes| - 1]) + hashes[|hashes| - 1]
  }

  /** The specification of `SerializeHashes`. */
  function Serialized(hashes: seq<Hash>): seq<byte> {
    LittleEndian(|hashes|, HASHES_LENGTH_SIZE) + Concat(hashes)
  }

  /** The hash stored at position `i`. */
  function HashAt(s: seq<byte>, i: nat): Hash
    requires HASHES_LENGTH_SIZE + DOMAIN_HASH_SIZE * (i + 1) <= |s|
  {
    s[HASHES_LENGTH_SIZE + DOMAIN_HASH_SIZE * i..HASHES_LENGTH_SIZE + DOMAIN_HASH_SIZE * (i + 1)]
  }

  function HashesAt(s: seq<byte>, n: nat): (hashes: seq<Hash>)
    requires HASHES_LENGTH_SIZE + DOMAIN_HASH_SIZE * n <= |s|
    ensures |hashes| == n
  {
    if n == 0 then [] else HashesAt(s, n - 1) + [HashAt(s, n - 1)]
  }

  /** The specification of `DeserializeHashes`. */
  function Deserialized(s: seq<byte>): Result<seq<Hash>> {
    if |s| < HASHES_LENGTH_SIZE then Err(OutOfBounds)
    else
      var length := FromLittleEndian(s[..HASHES_LENGTH_SIZE]);
      if HASHES_LENGTH_SIZE + DOMAIN_HASH_SIZE * length <= |s| then Ok(HashesAt(s, length)) else Err(UnexpectedEof)
  }

  /** Copies the bytes into the buffer behind what is already there. */
  method CopyInto(buffer: array<byte>, start: nat, bytes: seq<byte>)
    requires start + |bytes| <= buffer.Length
    modifies buffer
    ensures buffer[..start + |bytes|] == old(buffer[..start]) + bytes
  {
    for k := 0 to |bytes|
      invariant buffer[..start + k] == old(buffer[..start]) + bytes[..k]
    {
      buffer[start + k] := bytes[k];
    }
  }

  method SerializeHashes(hashes: seq<Hash>) returns (serialized: seq<byte>)
    ensures serialized == Serialized(hashes)
  {
    hide LittleEndian;
    var buffer := new byte[HASHES_LENGTH_SIZE + DOMAIN_HASH_SIZE * |hashes|](_ => 0);
    var count := LittleEndian(|hashes|, HASHES_LENGTH_SIZE);
    CopyInto(buffer, 0, count);
    for i := 0 to |hashes|
      invariant buffer[..HASHES_LENGTH_SIZE + DOMAIN_HASH_SIZE * i] == count + Concat(hashes[..i])
    {
      CopyInto(buffer, HASHES_LENGTH_SIZE + DOMAIN_HASH_SIZE * i, hashes[i]);
      assert hashes[..i + 1][..i] == hashes[..i];
    }
    assert hashes[..|hashes|] == hashes;
    serialized := buffer[..];
  }

  method DeserializeHashes(serialized: seq<byte>) returns (r: Result<seq<Hash>>)
    ensures r == Deserialized(serialized)
  {
    if |serialized| < HASHES_LENGTH_SIZE {
      return Err(OutOfBounds);
    }
    var length := FromLittleEndian(serialized[..HASHES_LENGTH_SIZE]);
    var hashes := [];
    var i := 0;
    while i < length
      invariant 0 <= i <= length
      invariant HASHES_LENGTH_SIZE + DOMAIN_HASH_SIZE * i <= |serialized|
      invariant hashes == HashesAt(serialized, i)
    {
      var start := HASHES_LENGTH_SIZE + DOMAIN_HASH_SIZE * i;
      var end := start + DOMAIN_HASH_SIZE;
      if end > |serialized| {
        return Err(UnexpectedEof);
      }
      hashes := hashes + [serialized[start..end]];
      i := i + 1;
    }
    r := Ok(hashes);
  }

  lemma {:induction false} LittleEndianReadsBack(n: nat, k: nat)
    requires n < Pow256(k)
    ensures FromLittleEndian(LittleEndian(n, k)) == n
    decreases k
  {
    if k > 0 {
      LittleEndianReadsBack(n / 256, k - 1);
      assert LittleEndian(n, k)[1..] == LittleEndian(n / 256, k - 1);
    }
  }

  lemma {:induction false} LittleEndianWritesBack(s: seq<byte>)
    ensures LittleEndian(FromLittleEndian(s), |s|) == s
    ensures FromLittleEndian(s) < Pow256(|s|)
    decreases |s|
  {
    if |s| > 0 {
      LittleEndianWritesBack(s[1..]);
      var n := FromLittleEndian(s);
      assert n % 256 == s[0] && n / 256 == FromLittleEndian(s[1..]);
    }
  }

  lemma {:induction false} HashesReadBack(hashes: seq<Hash>, s: seq<byte>)
    requires HASHES_LENGTH_SIZE + DOMAIN_HASH_SIZE * |hashes| <= |s|
    ensures HashesAt(s, |hashes|) == hashes <==>
            s[HASHES_LENGTH_SIZE..HASHES_LENGTH_SIZE + DOMAIN_HASH_SIZE * |hashes|] == Concat(hashes)
    decreases |hashes|
  {
    var n := |hashes|;
    if n > 0 {
      var init, last := hashes[..n - 1], hashes[n - 1];
      HashesReadBack(init, s);
      var body := s[HASHES_LENGTH_SIZE..HASHES_LENGTH_SIZE + DOMAIN_HASH_SIZE * n];
      var split := DOMAIN_HASH_SIZE * (n - 1);
      assert body[..split] == s[HASHES_LENGTH_SIZE..HASHES_LENGTH_SIZE + split];
      assert body[split..] == HashAt(s, n - 1);
      assert body == body[..split] + body[split..];
      assert Concat(hashes)[..split] == Concat(init) && Concat(hashes)[split..] == last;
      assert HashesAt(s, n)[..n - 1] == HashesAt(s, n - 1) && HashesAt(s, n)[n - 1] == HashAt(s, n - 1);
      assert hashes == init + [last];
    }
  }

  /**
   Reading back a stored list: bytes deserialize to a list exactly when they begin with its
   serialized form.  Bytes beyond it are ignored.
   */
  lemma DeserializesExactlyWhatWasSerialized(s: seq<byte>, hashes: seq<Hash>)
    requires |hashes| < Pow256(HASHES_LENGTH_SIZE)
    ensures Deserialized(s) == Ok(hashes) <==> Serialized(hashes) <= s
  {
    hide Pow256, HashesAt, Concat;
    var count := LittleEndian(|hashes|, HASHES_LENGTH_SIZE);
    LittleEndianReadsBack(|hashes|, HASHES_LENGTH_SIZE);
    if Serialized(hashes) <= s {
      assert s[..HASHES_LENGTH_SIZE] == count;
      assert s[HASHES_LENGTH_SIZE..HASHES_LENGTH_SIZE + DOMAIN_HASH_SIZE * |hashes|] == Concat(hashes);
      HashesReadBack(hashes, s);
    }
    if Deserialized(s) == Ok(hashes) {
      LittleEndianWritesBack(s[..HASHES_LENGTH_SIZE]);
      HashesReadBack(hashes, s);
      assert s[..HASHES_LENGTH_SIZE] == count;
      assert s[..|Serialized(hashes)|] == Serialized(hashes);
    }
  }

  lemma LittleEndianUnfolds(n: nat, k: nat)
    requires k > 0
    ensures LittleEndian(n, k) == [n % 256] + LittleEndian(n / 256, k - 1)
  {
  }

  /** The eight bytes of a count are its digits to the base 256, the lowest first. */
  lemma CountDigits(n: nat)
    ensures LittleEndian(n, 8) ==
            [n % 256, n / 0x100 % 256, n / 0x1_0000 % 256, n / 0x100_0000 % 256, n / 0x1_0000_0000 % 256,
             n / 0x100_0000_0000 % 256, n / 0x1_0000_0000_0000 % 256, n / 0x100_0000_0000_0000 % 256]
  {
    hide LittleEndian;
    LittleEndianUnfolds(n, 8);
    LittleEndianUnfolds(n / 0x100, 7);
    LittleEndianUnfolds(n / 0x1_0000, 6);
    LittleEndianUnfolds(n / 0x100_0000, 5);
    LittleEndianUnfolds(n / 0x1_0000_0000, 4);
    LittleEndianUnfolds(n / 0x100_0000_0000, 3);
    LittleEndianUnfolds(n / 0x1_0000_0000_0000, 2);
    LittleEndianUnfolds(n / 0x100_0000_0000_0000, 1);
    NestedDivisions(n);
  }

  lemma NestedDivisions(n: nat)
    ensures n / 0x100 / 256 == n / 0x1_0000 && n / 0x1_0000 / 256 == n / 0x100_0000
    ensures n / 0x100_0000 / 256 == n / 0x1_0000_0000 && n / 0x1_0000_0000 / 256 == n / 0x100_0000_0000
    ensures n / 0x100_0000_0000 / 256 == n / 0x1_0000_0000_0000
    ensures n / 0x1_0000_0000_0000 / 256 == n / 0x100_0000_0000_0000
  {
  }

  lemma {:induction false} ConcatAt(hashes: seq<Hash>, i: nat, j: nat)
    requires i < |hashes| && j < DOMAIN_HASH_SIZE
    ensures Concat(hashes)[DOMAIN_HASH_SIZE * i + j] == hashes[i][j]
    decreases |hashes|
  {
    if i < |hashes| - 1 {
      ConcatAt(hashes[..|hashes| - 1], i, j);
    }
  }

  /** The layout: eight bytes of the count, the lowest first, then the bytes of the hashes in order. */
  lemma SerializedLayout(hashes: seq<Hash>)
    ensures |Serialized(hashes)| == 8 + 32 * |hashes|
    ensures var n := |hashes|;
            Serialized(hashes)[..8] ==
            [n % 256, n / 0x100 % 256, n / 0x1_0000 % 256, n / 0x100_0000 % 256, n / 0x1_0000_0000 % 256,
             n / 0x100_0000_0000 % 256, n / 0x1_0000_0000_0000 % 256, n / 0x100_0000_0000_0000 % 256]
    ensures forall i, j :: 0 <= i < |hashes| && 0 <= j < 32 ==> Serialized(hashes)[8 + 32 * i + j] == hashes[i][j]
  {
    hide LittleEndian, Concat;
    CountDigits(|hashes|);
    forall i, j | 0 <= i < |hashes| && 0 <= j < 32
      ensures Serialized(hashes)[8 + 32 * i + j] == hashes[i][j]
    {
      ConcatAt(hashes, i, j);
    }
  }

  /** Reading fails exactly on bytes that begin with no serialized list; a cut-off count is told from a cut-off list. */
  lemma FailsExactlyOnOtherBytes(s: seq<byte>)
    ensures Deserialized(s).Ok? <==> exists hashes: seq<Hash> :: |hashes| < Pow256(8) && Serialized(hashes) <= s
    ensures Deserialized(s) == Err(OutOfBounds) <==> |s| < 8
  {
    hide Serialized, HashesAt, Pow256;
    if Deserialized(s).Ok? {
      var hashes := Deserialized(s).value;
      LittleEndianWritesBack(s[..HASHES_LENGTH_SIZE]);
      DeserializesExactlyWhatWasSerialized(s, hashes);
    }
    if hashes: seq<Hash> :| |hashes| < Pow256(8) && Serialized(hashes) <= s {
      DeserializesExactlyWhatWasSerialized(s, hashes);
    }
  }
}
