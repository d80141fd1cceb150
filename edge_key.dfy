/**
 * The call-graph edge key (tracing.c:101-144): a djb-style rolling hash,
 * seed 5381 and `h * 33 + byte`, over the 4-byte name hashes of the caller
 * and the callee, with each recursion level added (not folded) after its names.
 *
 * `zend_ulong` arithmetic wraps modulo 2^64. The bytes are read through a
 * `char *`, so each one is sign-extended before it is added; the model takes
 * the platform's signed `char` and little-endian byte order.
 * `ZSTR_HASH` is a parameter `H` giving the low 32 bits of a name's hash,
 * which is what the `int` parameter of `hash_int` receives.
 */
module EdgeKey {
  import opened Wrappers

  const U64: int := 0x1_0000_0000_0000_0000
  type Word64 = x: int | 0 <= x < U64
  type Word32 = x: int | 0 <= x < 0x1_0000_0000
  type Byte = x: int | 0 <= x < 256

  /** The seed of every key (tracing.c:119). */
  const KEY_SEED: Word64 := 5381

  /** A byte read as a signed `char`. */
  function SignedChar(b: Byte): (c: int)
    ensures -128 <= c < 128
    ensures (c - b) % 256 == 0
  {
    if b < 128 then b else b - 256
  }

  /** One round of `hash_data`: `hash = hash * 33 + data[i]` in 64-bit unsigned arithmetic. */
  function Mix(h: Word64, b: Byte): Word64
  {
    (h * 33 + SignedChar(b)) % U64
  }

  /** The hash `hash_data` computes: `Mix` over the bytes, first to last. */
  function HashFold(h: Word64, data: seq<Byte>): Word64
    decreases |data|
  {
    if data == [] then h else Mix(HashFold(h, data[..|data| - 1]), data[|data| - 1])
  }

  /** Hashing two byte strings one after the other is hashing their concatenation. */
  lemma {:induction false} HashFoldAppend(h: Word64, a: seq<Byte>, b: seq<Byte>)
    ensures HashFold(h, a + b) == HashFold(HashFold(h, a), b)
    decreases |b|
  {
    if b == [] {
      assert a + b == a;
    } else {
      var b' := b[..|b| - 1];
      assert (a + b)[..|a + b| - 1] == a + b';
      assert (a + b)[|a + b| - 1] == b[|b| - 1];
      HashFoldAppend(h, a, b');
    }
  }

  /** `hash_data` (tracing.c:101-110). */
  method HashData(hash: Word64, data: seq<Byte>) returns (r: Word64)
    ensures r == HashFold(hash, data)
  {
    r := hash;
    for i := 0 to |data|
      invariant r == HashFold(hash, data[..i])
    {
      assert data[..i + 1][..i] == data[..i];
      r := Mix(r, data[i]);
    }
    assert data[..|data|] == data;
  }

  /** The four bytes of an `int` in memory, least significant first. */
  function IntBytes(w: Word32): (bs: seq<Byte>)
    ensures |bs| == 4
    ensures bs[0] as int + 256 * (bs[1] as int) + 65536 * (bs[2] as int) + 16777216 * (bs[3] as int) == w
  {
    [w % 256, (w / 256) % 256, (w / 256 / 256) % 256, w / 256 / 256 / 256]
  }

  /** `hash_int` (tracing.c:112-115). */
  function HashInt(h: Word64, w: Word32): Word64
  {
    HashFold(h, IntBytes(w))
  }

  /** The identity of a frame as the key and the lookup see it. */
  datatype Ident = Ident(className: Option<string>, functionName: Option<string>, recurseLevel: int)

  /** Folds a name's hash in when the name is present and leaves `h` alone when it is absent. */
  function HashName(H: string -> Word32, h: Word64, name: Option<string>): Word64
  {
    if name.Some? then HashInt(h, H(name.value)) else h
  }

  /** `hash += recurse_level`, wrapping. */
  function AddLevel(h: Word64, level: int): Word64
  {
    (h + level) % U64
  }

  /** `tracing_callgraph_bucket_key` (tracing.c:117-144), for a frame and its `previous_frame`. */
  function BucketKey(H: string -> Word32, frame: Ident, previous: Option<Ident>): Word64
  {
    var h :=
      if previous.Some? then
        AddLevel(HashName(H, HashName(H, KEY_SEED, previous.value.className), previous.value.functionName),
                 previous.value.recurseLevel)
      else KEY_SEED;
    AddLevel(HashName(H, HashName(H, h, frame.className), frame.functionName), frame.recurseLevel)
  }

  /** The bytes a name contributes: its hash's four bytes, or nothing when it is absent. */
  function NameBytes(H: string -> Word32, name: Option<string>): seq<Byte>
  {
    if name.Some? then IntBytes(H(name.value)) else []
  }

  /** The bytes an identity contributes: its class name's, then its function name's. */
  function IdentBytes(H: string -> Word32, id: Ident): seq<Byte>
  {
    NameBytes(H, id.className) + NameBytes(H, id.functionName)
  }

  /**
   * Reference definition of the key: djb over the caller's present name bytes from the
   * seed, plus the caller's level; then djb over the callee's present name bytes, plus
   * the callee's level.
   */
  function DjbKey(H: string -> Word32, frame: Ident, previous: Option<Ident>): Word64
  {
    var start :=
      if previous.Some? then AddLevel(HashFold(KEY_SEED, IdentBytes(H, previous.value)), previous.value.recurseLevel)
      else KEY_SEED;
    AddLevel(HashFold(start, IdentBytes(H, frame)), frame.recurseLevel)
  }

  lemma HashNamesIsHashFold(H: string -> Word32, h: Word64, id: Ident)
    ensures HashName(H, HashName(H, h, id.className), id.functionName) == HashFold(h, IdentBytes(H, id))
  {
    HashFoldAppend(h, NameBytes(H, id.className), NameBytes(H, id.functionName));
  }

  /** The key is the djb hash of the present names' bytes (absent names are skipped). */
  lemma BucketKeyIsDjb(H: string -> Word32, frame: Ident, previous: Option<Ident>)
    ensures BucketKey(H, frame, previous) == DjbKey(H, frame, previous)
  {
    if previous.Some? {
      HashNamesIsHashFold(H, KEY_SEED, previous.value);
    }
    var start :=
      if previous.Some? then AddLevel(HashFold(KEY_SEED, IdentBytes(H, previous.value)), previous.value.recurseLevel)
      else KEY_SEED;
    HashNamesIsHashFold(H, start, frame);
  }

  /** A root key (no `previous_frame`) is the seed folded with the frame's own names, plus its level. */
  lemma RootKeyUsesOwnFieldsOnly(H: string -> Word32, frame: Ident)
    ensures BucketKey(H, frame, None) == AddLevel(HashFold(KEY_SEED, IdentBytes(H, frame)), frame.recurseLevel)
  {
    BucketKeyIsDjb(H, frame, None);
  }

  /** The key depends on the hash function only through the names that are present. */
  lemma KeyDependsOnlyOnPresentNames(H1: string -> Word32, H2: string -> Word32, frame: Ident, previous: Option<Ident>)
    requires frame.className.Some? ==> H1(frame.className.value) == H2(frame.className.value)
    requires frame.functionName.Some? ==> H1(frame.functionName.value) == H2(frame.functionName.value)
    requires previous.Some? && previous.value.className.Some? ==>
               H1(previous.value.className.value) == H2(previous.value.className.value)
    requires previous.Some? && previous.value.functionName.Some? ==>
               H1(previous.value.functionName.value) == H2(previous.value.functionName.value)
    ensures BucketKey(H1, frame, previous) == BucketKey(H2, frame, previous)
  {
  }

  /**
   * An absent name is skipped, not hashed as zero: a root frame whose only name
   * hashes to 0 does not get the key of a frame with no name at all.
   */
  lemma AbsentNameIsNotZeroHash(H: string -> Word32, name: string, level: int)
    requires H(name) == 0
    ensures BucketKey(H, Ident(None, Some(name), level), None) != BucketKey(H, Ident(None, None, level), None)
  {
    var zeros: seq<Byte> := [0, 0, 0, 0];
    assert IntBytes(0) == zeros;
    assert zeros[..3] == [0, 0, 0] && [0, 0, 0][..2] == [0, 0] && [0, 0][..1] == [0] && [0][..0] == [];
    var a := HashFold(KEY_SEED, zeros);
    assert a == 5381 * 33 * 33 * 33 * 33;
  }

  /**
   * That is particular to the seed. From 2^57, hashing a name whose hash is 0 lands
   * where skipping it does, since 33^4 - 1 is a multiple of 2^7: in general the key
   * does not tell an absent name from one hashing to 0.
   */
  lemma ZeroHashCanVanish()
    ensures HashName((_: string) => 0, 0x200_0000_0000_0000, Some("a"))
            == HashName((_: string) => 0, 0x200_0000_0000_0000, None)
  {
    var h: Word64 := 0x200_0000_0000_0000;
    var zeros: seq<Byte> := [0, 0, 0, 0];
    assert IntBytes(0) == zeros;
    assert zeros[..3] == [0, 0, 0] && [0, 0, 0][..2] == [0, 0] && [0, 0][..1] == [0] && [0][..0] == [];
    assert HashFold(h, [0]) == h * 33;
    assert HashFold(h, [0, 0]) == h * 65;
    assert HashFold(h, [0, 0, 0]) == h * 97;
    assert HashFold(h, zeros) == h;
  }
}
