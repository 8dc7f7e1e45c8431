/**
 Two-tier key custody (ha_tidesdb_crypto_keyring.cc over the byte layouts of crypto_keyenc.cc).

 Table keys are stored wrapped under a master generation; a version pointer publishes them.  Every
 operation is a sequence of single durable writes.  A write may fail, may fail although it reached
 the store, or may be the last thing before a crash, which loses only the cached generation.  What
 is proved: once published, a table key unwraps to the same bytes for ever after, whatever is
 minted, rotated, interrupted or retried.
 */
module KeyCustody {
  import opened Bytes
  import opened Optional
  import TableOptions

  type u32 = n: int | 0 <= n < 0x1_0000_0000

  const FIELD_LEN: nat := 4
  const GENERATION_NONE: u32 := 0
  const GENERATION_FIRST: u32 := 1
  const KEY_VERSION_INVALID: u32 := 0xFFFF_FFFF
  const MAX_ENCRYPTION_KEY_ID: u32 := 255
  const MAX_ENCRYPTION_KEY_VERSIONS: u32 := 4096
  const CRYPTO_KEY_LEN: nat := 32

  // ---- crypto_keyenc ----------------------------------------------------------------------

  function Be32(v: u32): seq<byte> {
    BigEndian(v, FIELD_LEN)
  }

  function Be32Decode(s: seq<byte>): (v: u32)
    requires |s| == FIELD_LEN
  {
    FromBigEndianBound(s);
    ConcreteWidths();
    FromBigEndian(s)
  }

  lemma Be32RoundTrip(v: u32)
    ensures Be32Decode(Be32(v)) == v
  {
    ConcreteWidths();
    BigEndianRoundTrip(v, FIELD_LEN);
  }

  const MASTER_SEQ_KEY: seq<byte> := [0]

  function WrappedKey(id: u32, version: u32): seq<byte> {
    [1] + Be32(id) + Be32(version)
  }

  function LatestKey(id: u32): seq<byte> {
    [2] + Be32(id)
  }

  /** The three namespaces never collide and each key names its fields. */
  lemma StoreKeysAreDistinct(id: u32, v: u32, id': u32, v': u32)
    ensures WrappedKey(id, v) == WrappedKey(id', v') <==> id == id' && v == v'
    ensures LatestKey(id) == LatestKey(id') <==> id == id'
    ensures WrappedKey(id, v) != LatestKey(id')
    ensures WrappedKey(id, v) != MASTER_SEQ_KEY && LatestKey(id) != MASTER_SEQ_KEY
  {
    ConcreteWidths();
    assert WrappedKey(id, v)[1..5] == Be32(id) && WrappedKey(id, v)[5..] == Be32(v);
    assert WrappedKey(id', v')[1..5] == Be32(id') && WrappedKey(id', v')[5..] == Be32(v');
    assert LatestKey(id)[1..] == Be32(id) && LatestKey(id')[1..] == Be32(id');
    BigEndianRoundTrip(id, FIELD_LEN);
    BigEndianRoundTrip(id', FIELD_LEN);
    BigEndianRoundTrip(v, FIELD_LEN);
    BigEndianRoundTrip(v', FIELD_LEN);
    assert WrappedKey(id, v)[0] == 1 && LatestKey(id)[0] == 2 == LatestKey(id')[0];
  }

  /** frame_wrapped_value */
  function Frame(generation: u32, wrapped: seq<byte>): seq<byte> {
    Be32(generation) + wrapped
  }

  /** parse_wrapped_value */
  function ParseFrame(stored: seq<byte>): Option<(u32, seq<byte>)> {
    if |stored| <= FIELD_LEN then None
    else Some((Be32Decode(stored[..FIELD_LEN]), stored[FIELD_LEN..]))
  }

  lemma ParseOfFrame(generation: u32, wrapped: seq<byte>)
    requires wrapped != []
    ensures ParseFrame(Frame(generation, wrapped)) == Some((generation, wrapped))
  {
    Be32RoundTrip(generation);
    assert Frame(generation, wrapped)[..FIELD_LEN] == Be32(generation);
    assert Frame(generation, wrapped)[FIELD_LEN..] == wrapped;
  }

  /** A stored value parses exactly when it is the frame of some wrapped bytes; a header alone does not. */
  lemma ParsesFrames(stored: seq<byte>, generation: u32, wrapped: seq<byte>)
    ensures ParseFrame(stored) == Some((generation, wrapped)) <==> wrapped != [] && stored == Frame(generation, wrapped)
  {
    hide Be32Decode;
    if wrapped != [] {
      ParseOfFrame(generation, wrapped);
    }
    if |stored| > FIELD_LEN {
      var head := stored[..FIELD_LEN];
      HeadIsBe32(head);
      assert stored == head + stored[FIELD_LEN..];
    }
  }

  lemma HeadIsBe32(head: seq<byte>)
    requires |head| == FIELD_LEN
    ensures Be32(Be32Decode(head)) == head
  {
    FromBigEndianBound(head);
  }

  // ---- the cipher and what the store means ------------------------------------------------

  /** The wrapping cipher: any pair where unwrapping under the wrapping key gives the key back. */
  datatype Cipher = Cipher(wrap: (seq<byte>, seq<byte>) -> seq<byte>,
                           unwrap: (seq<byte>, seq<byte>) -> Option<seq<byte>>)

  ghost predicate Sound(c: Cipher) {
    forall key: seq<byte>, plain: seq<byte> :: plain != [] ==>
      c.wrap(key, plain) != [] && c.unwrap(key, c.wrap(key, plain)) == Some(plain)
  }

  type Store = map<seq<byte>, seq<byte>>
  type Keyring = map<u32, seq<byte>>

  /** tdb_table_key_unwrap: a missing master generation is a failure, never minted. */
  function Unwrap(c: Cipher, ring: Keyring, stored: seq<byte>): Option<seq<byte>> {
    match ParseFrame(stored)
    case None => None
    case Some((g, wrapped)) =>
      if g !in ring then None
      else
        match c.unwrap(ring[g], wrapped)
        case None => None
        case Some(plain) => if plain == [] then None else Some(plain)
  }

  /** The key bytes one (id, version) recovers to. */
  function TableKey(c: Cipher, s: Store, ring: Keyring, id: u32, version: u32): Option<seq<byte>> {
    if WrappedKey(id, version) !in s then None else Unwrap(c, ring, s[WrappedKey(id, version)])
  }

  /** The version pointer of an id. */
  function LatestOf(s: Store, id: u32): Option<u32> {
    if LatestKey(id) in s && |s[LatestKey(id)]| == FIELD_LEN then Some(Be32Decode(s[LatestKey(id)])) else None
  }

  /** The master generation a stored table key is framed with. */
  function FramedWith(s: Store, id: u32, version: u32): Option<u32> {
    if WrappedKey(id, version) !in s then None
    else
      match ParseFrame(s[WrappedKey(id, version)])
      case None => None
      case Some((g, _)) => Some(g)
  }

  type History = map<(u32, u32), seq<byte>>

  /**
   The custody invariant: the history holds exactly the versions 1 .. latest of each id, and each
   recovers to the bytes the history has for it.
   */
  ghost predicate Custody(c: Cipher, s: Store, ring: Keyring, h: History) {
    && Sound(c)
    && (forall id: u32 :: LatestKey(id) in s ==> |s[LatestKey(id)]| == FIELD_LEN)
    && (forall id: u32, v: u32 :: (id, v) in h <==>
          LatestOf(s, id).Some? && 1 <= v <= LatestOf(s, id).value)
    && (forall id: u32 :: LatestOf(s, id).Some? ==> 1 <= LatestOf(s, id).value <= MAX_ENCRYPTION_KEY_VERSIONS)
    && (forall id: u32, v: u32 :: (id, v) in h ==> TableKey(c, s, ring, id, v) == Some(h[(id, v)]))
  }

  // ---- what single writes do --------------------------------------------------------------

  /** A new master generation disturbs nothing. */
  lemma NewGenerationKeepsCustody(c: Cipher, s: Store, ring: Keyring, h: History, g: u32, key: seq<byte>)
    requires Custody(c, s, ring, h) && g !in ring
    ensures Custody(c, s, ring[g := key], h)
  {
    hide Sound;
    forall id: u32, v: u32 | (id, v) in h
      ensures TableKey(c, s, ring[g := key], id, v) == Some(h[(id, v)])
    {
      assert TableKey(c, s, ring, id, v) == Some(h[(id, v)]);
    }
  }

  /** So does seeding or advancing the generation record. */
  lemma MasterSeqKeepsCustody(c: Cipher, s: Store, ring: Keyring, h: History, value: seq<byte>)
    requires Custody(c, s, ring, h)
    ensures Custody(c, s[MASTER_SEQ_KEY := value], ring, h)
  {
    hide Sound, Unwrap, Be32Decode;
    var t := s[MASTER_SEQ_KEY := value];
    forall i: u32
      ensures LatestOf(t, i) == LatestOf(s, i)
      ensures LatestKey(i) in t ==> |t[LatestKey(i)]| == FIELD_LEN
    {
      StoreKeysAreDistinct(i, 0, i, 0);
    }
    forall i: u32, w: u32 ensures TableKey(c, t, ring, i, w) == TableKey(c, s, ring, i, w) {
      StoreKeysAreDistinct(i, w, i, w);
    }
  }

  /** Storing a wrapped key under a version not yet published strands it and harms nothing. */
  lemma StrandedKeyKeepsCustody(c: Cipher, s: Store, ring: Keyring, h: History, id: u32, v: u32, value: seq<byte>)
    requires Custody(c, s, ring, h) && (id, v) !in h
    ensures Custody(c, s[WrappedKey(id, v) := value], ring, h)
  {
    hide Sound, Unwrap, Be32Decode;
    var t := s[WrappedKey(id, v) := value];
    forall i: u32
      ensures LatestOf(t, i) == LatestOf(s, i)
      ensures LatestKey(i) in t ==> |t[LatestKey(i)]| == FIELD_LEN
    {
      StoreKeysAreDistinct(id, v, i, 0);
    }
    forall i: u32, w: u32
      ensures (i, w) != (id, v) ==> TableKey(c, t, ring, i, w) == TableKey(c, s, ring, i, w)
    {
      StoreKeysAreDistinct(id, v, i, w);
    }
  }

  /** Moving the version pointer up by one publishes the key stored under the next version. */
  lemma PublishKeepsCustody(c: Cipher, s: Store, ring: Keyring, h: History, id: u32, next: u32, key: seq<byte>)
    requires Custody(c, s, ring, h)
    requires 1 <= next <= MAX_ENCRYPTION_KEY_VERSIONS
    requires if LatestOf(s, id).Some? then next == LatestOf(s, id).value + 1 else next == 1
    requires TableKey(c, s, ring, id, next) == Some(key)
    ensures (id, next) !in h
    ensures Custody(c, s[LatestKey(id) := Be32(next)], ring, h[(id, next) := key])
  {
    hide Sound, Unwrap, Be32Decode;
    var t := s[LatestKey(id) := Be32(next)];
    Be32RoundTrip(next);
    forall i: u32
      ensures i != id ==> LatestOf(t, i) == LatestOf(s, i)
      ensures LatestKey(i) in t ==> |t[LatestKey(i)]| == FIELD_LEN
    {
      StoreKeysAreDistinct(i, 0, id, 0);
    }
    forall i: u32, w: u32 ensures TableKey(c, t, ring, i, w) == TableKey(c, s, ring, i, w) {
      StoreKeysAreDistinct(i, w, id, next);
    }
  }

  /** Re-wrapping a key under any generation the keyring holds keeps the key. */
  lemma RewrapKeepsCustody(c: Cipher, s: Store, ring: Keyring, h: History, id: u32, v: u32, g: u32, plain: seq<byte>)
    requires Custody(c, s, ring, h) && g in ring
    requires TableKey(c, s, ring, id, v) == Some(plain)
    ensures plain != []
    ensures var t := s[WrappedKey(id, v) := Frame(g, c.wrap(ring[g], plain))];
            Custody(c, t, ring, h) && FramedWith(t, id, v) == Some(g)
  {
    var t := s[WrappedKey(id, v) := Frame(g, c.wrap(ring[g], plain))];
    ParseOfFrame(g, c.wrap(ring[g], plain));
    assert TableKey(c, t, ring, id, v) == Some(plain);
    forall i: u32
      ensures LatestOf(t, i) == LatestOf(s, i)
      ensures LatestKey(i) in t ==> |t[LatestKey(i)]| == FIELD_LEN
    {
      StoreKeysAreDistinct(id, v, i, 0);
    }
    forall i: u32, w: u32
      ensures (i, w) != (id, v) ==> TableKey(c, t, ring, i, w) == TableKey(c, s, ring, i, w)
    {
      StoreKeysAreDistinct(id, v, i, w);
    }
  }

  /** Every published key is still published, with the bytes it had. */
  ghost predicate Extends(was: History, now: History) {
    forall k :: k in was ==> k in now && now[k] == was[k]
  }

  /** The generation the store names; an installation without one starts with the first. */
  function StoredGeneration(s: Store): u32 {
    if MASTER_SEQ_KEY in s && |s[MASTER_SEQ_KEY]| == FIELD_LEN then Be32Decode(s[MASTER_SEQ_KEY]) else GENERATION_FIRST
  }

  /** The generation in force: the cached one, or else the stored one. */
  function CurrentGeneration(cached: u32, s: Store): u32 {
    if cached != GENERATION_NONE then cached else StoredGeneration(s)
  }

  /** One more, in 32 bits. */
  function NextGeneration(g: u32): (n: u32)
    ensures g < 0xFFFF_FFFF ==> n == g + 1
    ensures g == 0xFFFF_FFFF ==> n == GENERATION_NONE
  {
    var n: int := g;
    (n + 1) % 0x1_0000_0000
  }

  // ---- calls that fail --------------------------------------------------------------------

  /** A call of the store, the keyring, the cipher or the random source fails, before or after it took effect. */
  datatype Fault = Refused | Written

  /** One of the calls numbered from lo up to hi fails. */
  ghost predicate FaultIn(faults: map<nat, Fault>, lo: nat, hi: nat) {
    exists n :: lo <= n < hi && n in faults
  }

  lemma FaultSplit(faults: map<nat, Fault>, lo: nat, mid: nat, hi: nat)
    requires lo <= mid <= hi
    ensures FaultIn(faults, lo, hi) <==> FaultIn(faults, lo, mid) || FaultIn(faults, mid, hi)
  {
    if FaultIn(faults, lo, hi) {
      var n :| lo <= n < hi && n in faults;
      assert n < mid || mid <= n;
    }
  }

  lemma FaultOne(faults: map<nat, Fault>, n: nat)
    ensures FaultIn(faults, n, n + 1) <==> n in faults
    ensures !FaultIn(faults, n, n)
  {}

  // ---- which generations frame the keys ---------------------------------------------------

  /**
   No generation older than floor is in force or frames a published key of a swept id, and none is above
   ceiling, as long as the generations have not run out of 32 bits.
   */
  ghost predicate Fresh(s: Store, h: History, cached: u32, floor: u32, ceiling: nat) {
    ceiling < 0x1_0000_0000 ==>
      && 1 <= floor <= ceiling && (cached != GENERATION_NONE ==> floor <= cached <= ceiling)
      && floor <= StoredGeneration(s) <= ceiling
      && forall id: u32, v: u32 :: (id, v) in h && 1 <= id <= MAX_ENCRYPTION_KEY_ID ==>
           FramedWith(s, id, v).Some? && floor <= FramedWith(s, id, v).value
  }

  /** What minting or rotating a table key does to the frames. */
  ghost predicate FramesKept(s: Store, h: History, g: u32, s': Store, h': History) {
    && StoredGeneration(s') == StoredGeneration(s)
    && (forall id: u32, v: u32 :: (id, v) in h ==> FramedWith(s', id, v) == FramedWith(s, id, v))
    && (forall id: u32, v: u32 :: (id, v) in h' && (id, v) !in h ==> FramedWith(s', id, v) == Some(g))
  }

  /** Every published key of a swept id is framed with the generation. */
  ghost predicate AllFramed(s: Store, h: History, g: u32) {
    forall id: u32, v: u32 :: (id, v) in h && 1 <= id <= MAX_ENCRYPTION_KEY_ID ==> FramedWith(s, id, v) == Some(g)
  }

  /** One generation is in force, is stored, and frames every published key of a swept id. */
  ghost predicate AtOne(s: Store, h: History, cached: u32, g: u32) {
    StoredGeneration(s) == g && (cached == GENERATION_NONE || cached == g) && AllFramed(s, h, g)
  }

  lemma AtOneAfterTableKey(s: Store, h: History, cached: u32, g: u32, s': Store, h': History, cached': u32)
    requires FramesKept(s, h, CurrentGeneration(cached, s), s', h')
    requires cached' == cached || cached' == CurrentGeneration(cached, s)
    ensures AtOne(s, h, cached, g) ==> AtOne(s', h', cached', g)
  {
    hide FramedWith, StoredGeneration;
  }

  lemma AtOneNow(s: Store, h: History, g: u32)
    requires StoredGeneration(s) == g && AllFramed(s, h, g)
    ensures AtOne(s, h, g, g)
  {}

  lemma AtOneUncached(s: Store, h: History, cached: u32, g: u32)
    ensures AtOne(s, h, cached, g) ==> AtOne(s, h, GENERATION_NONE, g)
  {
    hide FramedWith, StoredGeneration;
  }

  lemma FreshCurrent(s: Store, h: History, cached: u32, floor: u32, ceiling: nat)
    requires Fresh(s, h, cached, floor, ceiling) && ceiling < 0x1_0000_0000
    ensures CurrentGeneration(cached, s) != GENERATION_NONE
  {
    hide FramedWith, StoredGeneration;
  }

  lemma PublishedRecover(c: Cipher, s: Store, ring: Keyring, h: History)
    requires Custody(c, s, ring, h)
    ensures forall id: u32, v: u32 :: (id, v) in h ==> TableKey(c, s, ring, id, v) == Some(h[(id, v)])
  {}

  lemma FreshAfterTableKey(s: Store, h: History, cached: u32, floor: u32, ceiling: nat, s': Store, h': History,
                           cached': u32)
    requires Fresh(s, h, cached, floor, ceiling) && FramesKept(s, h, CurrentGeneration(cached, s), s', h')
    requires cached' == cached || cached' == CurrentGeneration(cached, s)
    ensures Fresh(s', h', cached', floor, ceiling)
  {
    hide FramedWith, StoredGeneration;
  }

  /** What a rotation of the master key that does not succeed can leave. */
  ghost predicate HalfSwept(s: Store, h: History, next: u32, s': Store) {
    && (StoredGeneration(s') == StoredGeneration(s) || StoredGeneration(s') == next)
    && (forall id: u32, v: u32 :: (id, v) in h ==>
          FramedWith(s', id, v) == FramedWith(s, id, v) || FramedWith(s', id, v) == Some(next))
  }

  lemma FreshAfterAttempt(s: Store, h: History, cached: u32, floor: u32, ceiling: nat, s': Store, cached': u32)
    requires Fresh(s, h, cached, floor, ceiling)
    requires HalfSwept(s, h, NextGeneration(CurrentGeneration(cached, s)), s')
    requires cached' == cached || cached' == CurrentGeneration(cached, s)
    ensures Fresh(s', h, cached', floor, ceiling + 1)
  {
    hide FramedWith, StoredGeneration;
  }

  lemma FreshAfterRotation(s: Store, h: History, cached: u32, floor: u32, ceiling: nat, s': Store)
    requires Fresh(s, h, cached, floor, ceiling)
    requires var g := NextGeneration(CurrentGeneration(cached, s));
      StoredGeneration(s') == g && AllFramed(s', h, g)
    ensures var g := NextGeneration(CurrentGeneration(cached, s)); Fresh(s', h, g, g, ceiling + 1)
  {
    hide FramedWith, StoredGeneration;
  }

  // ---- the operations ---------------------------------------------------------------------

  datatype Op =
    | UseKey(id: u32, random: seq<byte>)
    | RotateTable(id: u32, random: seq<byte>)
    | RotateMaster
    | Crash

  class Custodian {
    const cipher: Cipher
    /** Which calls fail, by number, and how many have been made. */
    const faults: map<nat, Fault>
    var calls: nat
    /** The reserved column family; durable. */
    var store: Store
    /** Master keys by generation; durable, and never loses a key. */
    var keyring: Keyring
    /** tdb_master_generation: a cache, lost in a crash. */
    var generation: u32
    /** The bytes of every version published so far. */
    ghost var history: History
    /** The generation the last successful rotation of the master key left, and a bound on all begun. */
    ghost var floor: u32
    ghost var ceiling: nat

    ghost predicate Valid()
      reads this
    {
      Custody(cipher, store, keyring, history)
    }

    constructor (cipher: Cipher, faults: map<nat, Fault>)
      requires Sound(cipher)
      ensures Valid() && history == map[] && store == map[] && keyring == map[] && this.faults == faults
      ensures Fresh(store, history, generation, floor, ceiling) && floor == 1 == ceiling && calls == 0
    {
      this.cipher, this.faults, calls := cipher, faults, 0;
      store, keyring, generation, history := map[], map[], GENERATION_NONE, map[];
      floor, ceiling := GENERATION_FIRST, GENERATION_FIRST;
    }

    /** One call that may fail. */
    method Call() returns (fault: Option<Fault>)
      modifies this`calls
      ensures calls == old(calls) + 1
      ensures fault == if old(calls) in faults then Some(faults[old(calls)]) else None
      ensures fault.None? <==> !FaultIn(faults, old(calls), calls)
    {
      FaultOne(faults, calls);
      fault := if calls in faults then Some(faults[calls]) else None;
      calls := calls + 1;
    }

    /** tdb_store_put: one durable write, which may fail before or after it reached the store. */
    method StorePut(key: seq<byte>, value: seq<byte>) returns (ok: bool)
      modifies this`store, this`calls
      ensures calls == old(calls) + 1 && (ok <==> !FaultIn(faults, old(calls), calls))
      ensures store == old(store)[key := value] || (!ok && store == old(store))
      ensures !ok ==> old(calls) in faults && (faults[old(calls)].Written? ==> store == old(store)[key := value])
      ensures !ok && faults[old(calls)].Refused? ==> store == old(store)
    {
      FaultOne(faults, calls);
      var fault := Call();
      if fault != Some(Refused) {
        store := store[key := value];
      }
      ok := fault.None?;
    }

    /** tdb_master_key_get: the keyring may refuse to generate, or to hand back what it generated. */
    method MasterKeyGet(g: u32, mint: bool) returns (key: Option<seq<byte>>)
      requires Valid()
      modifies this`keyring, this`calls
      ensures Valid() && old(keyring.Keys) <= keyring.Keys && calls >= old(calls)
      ensures !mint ==> keyring == old(keyring) && key == (if g in keyring then Some(keyring[g]) else None)
      ensures key.Some? ==> g in keyring && keyring[g] == key.value
      ensures mint ==> (key.Some? <==> !FaultIn(faults, old(calls), calls))
    {
      FaultOne(faults, calls);
      if g in keyring { return Some(keyring[g]); }
      if !mint { return None; }
      var fault := Call();
      if fault == Some(Refused) { return None; }
      assert |seq(CRYPTO_KEY_LEN, i => 0 as byte)| == CRYPTO_KEY_LEN;
      var minted: seq<byte> :| |minted| == CRYPTO_KEY_LEN;
      NewGenerationKeepsCustody(cipher, store, keyring, history, g, minted);
      keyring := keyring[g := minted];
      if fault.Some? { return None; }
      return Some(minted);
    }

    /** tdb_master_generation_resolve */
    method MasterGenerationResolve() returns (g: u32)
      requires Valid()
      modifies this`store, this`generation, this`calls
      ensures Valid() && calls >= old(calls)
      ensures store == old(store) || store == old(store)[MASTER_SEQ_KEY := Be32(GENERATION_FIRST)]
      ensures StoredGeneration(store) == old(StoredGeneration(store))
      ensures generation == old(generation) || generation == CurrentGeneration(old(generation), old(store))
      ensures old(generation) != GENERATION_NONE ==> g == old(generation) && store == old(store)
      ensures g != GENERATION_NONE ==> g == CurrentGeneration(old(generation), old(store)) == generation
      ensures g != GENERATION_NONE <==>
        CurrentGeneration(old(generation), old(store)) != GENERATION_NONE && !FaultIn(faults, old(calls), calls)
    {
      FaultOne(faults, calls);
      if generation != GENERATION_NONE { return generation; }
      if MASTER_SEQ_KEY in store && |store[MASTER_SEQ_KEY]| == FIELD_LEN {
        generation := Be32Decode(store[MASTER_SEQ_KEY]);
        return generation;
      }
      Be32RoundTrip(GENERATION_FIRST);
      MasterSeqKeepsCustody(cipher, store, keyring, history, Be32(GENERATION_FIRST));
      var ok := StorePut(MASTER_SEQ_KEY, Be32(GENERATION_FIRST));
      if !ok { return GENERATION_NONE; }
      generation := GENERATION_FIRST;
      return generation;
    }

    /** tdb_table_key_wrap */
    method TableKeyWrap(plain: seq<byte>, g: u32) returns (wrapped: Option<seq<byte>>)
      requires Valid() && plain != []
      modifies this`keyring, this`calls
      ensures Valid() && old(keyring.Keys) <= keyring.Keys && calls >= old(calls)
      ensures wrapped.Some? ==> g in keyring && wrapped.value == Frame(g, cipher.wrap(keyring[g], plain))
      ensures wrapped.Some? <==> !FaultIn(faults, old(calls), calls)
    {
      hide Custody, FaultIn;
      var master := MasterKeyGet(g, true);
      if master.None? { return None; }
      ghost var mid := calls;
      var fault := Call();
      FaultSplit(faults, old(calls), mid, calls);
      if fault.Some? { return None; }
      return Some(Frame(g, cipher.wrap(master.value, plain)));
    }

    /** Store a minted key under the next version of an id, then move the version pointer to it. */
    method StoreAndPublish(id: u32, next: u32, key: seq<byte>, g: u32) returns (ok: bool)
      requires Valid() && key != []
      requires 1 <= next <= MAX_ENCRYPTION_KEY_VERSIONS
      requires if LatestOf(store, id).Some? then next == LatestOf(store, id).value + 1 else next == 1
      modifies this`store, this`keyring, this`history, this`calls
      ensures Valid() && calls >= old(calls) && (ok <==> !FaultIn(faults, old(calls), calls))
      ensures history == old(history) || history == old(history)[(id, next) := key]
      ensures Extends(old(history), history)
      ensures ok ==> history == old(history)[(id, next) := key] && LatestOf(store, id) == Some(next)
      ensures ok ==> FramedWith(store, id, next) == Some(g)
      ensures FramesKept(old(store), old(history), g, store, history)
    {
      hide Unwrap, Be32Decode, FaultIn;
      assert (id, next) !in history;
      var wrapped := TableKeyWrap(key, g);
      if wrapped.None? { return false; }
      ParseOfFrame(g, cipher.wrap(keyring[g], key));
      StrandedKeyKeepsCustody(cipher, store, keyring, history, id, next, wrapped.value);
      FreshKeyRecovers(cipher, store, keyring, id, next, g, key);
      WrappedFrames(store, id, next, wrapped.value);
      ghost var was, mid := store, calls;
      ok := StorePut(WrappedKey(id, next), wrapped.value);
      FaultSplit(faults, old(calls), mid, calls);
      if !ok { return false; }
      StoreKeysAreDistinct(id, next, id, next);
      assert LatestOf(store, id) == LatestOf(was, id);
      PublishKeepsCustody(cipher, store, keyring, history, id, next, key);
      Be32RoundTrip(next);
      LatestFrames(store, id, Be32(next));
      ghost var before, late := store, calls;
      ok := StorePut(LatestKey(id), Be32(next));
      FaultSplit(faults, old(calls), late, calls);
      if store == before[LatestKey(id) := Be32(next)] {
        history := history[(id, next) := key];
      }
    }

    /** tdb_table_key_mint */
    method TableKeyMint(id: u32, random: seq<byte>) returns (version: u32)
      requires Valid() && |random| == CRYPTO_KEY_LEN && LatestOf(store, id).None?
      modifies this`store, this`keyring, this`generation, this`history, this`calls
      ensures Valid() && Extends(old(history), history) && calls >= old(calls)
      ensures version == KEY_VERSION_INVALID || version == GENERATION_FIRST
      ensures version == GENERATION_FIRST <==>
        CurrentGeneration(old(generation), old(store)) != GENERATION_NONE && !FaultIn(faults, old(calls), calls)
      ensures version == GENERATION_FIRST ==>
                history == old(history)[(id, 1) := random] && LatestOf(store, id) == Some(1)
      ensures version == GENERATION_FIRST ==>
        FramedWith(store, id, 1) == Some(CurrentGeneration(old(generation), old(store)))
      ensures FramesKept(old(store), old(history), CurrentGeneration(old(generation), old(store)), store, history)
      ensures generation == old(generation) || generation == CurrentGeneration(old(generation), old(store))
    {
      hide Be32Decode, FaultIn, Custody, FramedWith;
      StoreKeysAreDistinct(id, 0, id, 0);
      MasterSeqKeepsFrames(store, Be32(GENERATION_FIRST));
      var g := MasterGenerationResolve();
      if g == GENERATION_NONE { return KEY_VERSION_INVALID; }
      ghost var mid := calls;
      var fault := Call();
      FaultSplit(faults, old(calls), mid, calls);
      if fault.Some? { return KEY_VERSION_INVALID; }
      ghost var late := calls;
      var ok := StoreAndPublish(id, GENERATION_FIRST, random, g);
      FaultSplit(faults, old(calls), late, calls);
      return if ok then GENERATION_FIRST else KEY_VERSION_INVALID;
    }

    /** tdb_crypto_latest_key_version: the version to stamp into rows written now. */
    method LatestKeyVersion(id: u32, random: seq<byte>) returns (version: u32)
      requires Valid() && |random| == CRYPTO_KEY_LEN
      modifies this`store, this`keyring, this`generation, this`history, this`calls
      ensures Valid() && Extends(old(history), history) && calls >= old(calls)
      ensures version != KEY_VERSION_INVALID ==> LatestOf(store, id) == Some(version) && (id, version) in history
      ensures version == KEY_VERSION_INVALID ==>
        CurrentGeneration(old(generation), old(store)) == GENERATION_NONE || FaultIn(faults, old(calls), calls)
      ensures old(LatestOf(store, id)).Some? ==>
                version == old(LatestOf(store, id)).value && store == old(store) && history == old(history)
      ensures FramesKept(old(store), old(history), CurrentGeneration(old(generation), old(store)), store, history)
      ensures generation == old(generation) || generation == CurrentGeneration(old(generation), old(store))
    {
      hide FaultIn, FramedWith;
      if LatestKey(id) in store && |store[LatestKey(id)]| == FIELD_LEN {
        assert LatestOf(store, id) == Some(Be32Decode(store[LatestKey(id)]));
        return Be32Decode(store[LatestKey(id)]);
      }
      version := TableKeyMint(id, random);
    }

    /** tdb_crypto_get_key: the bytes of one version, when the caller's buffer can hold them. */
    method GetKey(id: u32, version: u32, capacity: nat) returns (key: Option<seq<byte>>)
      requires Valid()
      ensures key.Some? ==> TableKey(cipher, store, keyring, id, version) == key && |key.value| <= capacity
      ensures (id, version) in history && |history[(id, version)]| <= capacity ==>
                key == Some(history[(id, version)])
    {
      if WrappedKey(id, version) !in store { return None; }
      var plain := Unwrap(cipher, keyring, store[WrappedKey(id, version)]);
      if plain.None? || |plain.value| > capacity { return None; }
      return plain;
    }

    /** tdb_crypto_rotate_table_key */
    method RotateTableKey(id: u32, random: seq<byte>) returns (ok: bool)
      requires Valid() && |random| == CRYPTO_KEY_LEN
      modifies this`store, this`keyring, this`generation, this`history, this`calls
      ensures Valid() && Extends(old(history), history) && calls >= old(calls)
      ensures ok <==>
        && 1 <= id <= MAX_ENCRYPTION_KEY_ID && old(LatestOf(store, id)) != Some(MAX_ENCRYPTION_KEY_VERSIONS)
        && CurrentGeneration(old(generation), old(store)) != GENERATION_NONE && !FaultIn(faults, old(calls), calls)
      ensures ok ==>
                var next := if old(LatestOf(store, id)).Some? then old(LatestOf(store, id)).value + 1 else 1;
                && next <= MAX_ENCRYPTION_KEY_VERSIONS
                && LatestOf(store, id) == Some(next) && history == old(history)[(id, next) := random]
                && FramedWith(store, id, next) == Some(CurrentGeneration(old(generation), old(store)))
      ensures old(LatestOf(store, id)) == Some(MAX_ENCRYPTION_KEY_VERSIONS) ==> !ok && history == old(history)
      ensures FramesKept(old(store), old(history), CurrentGeneration(old(generation), old(store)), store, history)
      ensures generation == old(generation) || generation == CurrentGeneration(old(generation), old(store))
    {
      hide Be32Decode, FaultIn, FramedWith;
      if id < 1 || id > MAX_ENCRYPTION_KEY_ID { return false; }
      StoreKeysAreDistinct(id, 0, id, 0);
      MasterSeqKeepsFrames(store, Be32(GENERATION_FIRST));
      ghost var was := LatestOf(store, id);
      var g := MasterGenerationResolve();
      assert LatestOf(store, id) == was;
      if g == GENERATION_NONE { return false; }
      ghost var mid := calls;
      if LatestOf(store, id).None? {
        var version := TableKeyMint(id, random);
        FaultSplit(faults, old(calls), mid, calls);
        return version != KEY_VERSION_INVALID;
      }
      var current := LatestOf(store, id).value;
      if current >= MAX_ENCRYPTION_KEY_VERSIONS { return false; }
      var fault := Call();
      FaultSplit(faults, old(calls), mid, calls);
      if fault.Some? { return false; }
      ghost var late := calls;
      ok := StoreAndPublish(id, current + 1, random, g);
      FaultSplit(faults, old(calls), late, calls);
    }

    /** One step of the master-key sweep: re-wrap one stored table key under the next generation. */
    method RewrapOne(id: u32, version: u32, next: u32) returns (ok: bool)
      requires Valid() && (id, version) in history
      modifies this`store, this`keyring, this`calls
      ensures Valid() && old(keyring.Keys) <= keyring.Keys && calls >= old(calls)
      ensures ok <==> !FaultIn(faults, old(calls), calls)
      ensures ok ==> FramedWith(store, id, version) == Some(next)
      ensures forall i: u32 :: LatestOf(store, i) == old(LatestOf(store, i))
      ensures FramedWith(store, id, version) == old(FramedWith(store, id, version)) ||
        FramedWith(store, id, version) == Some(next)
      ensures forall i: u32, v: u32 :: (i, v) != (id, version) ==>
                FramedWith(store, i, v) == old(FramedWith(store, i, v))
      ensures StoredGeneration(store) == old(StoredGeneration(store))
    {
      hide Be32Decode, ParseFrame, FaultIn;
      forall i: u32 ensures LatestKey(i) != WrappedKey(id, version) {
        StoreKeysAreDistinct(id, version, i, 0);
      }
      forall i: u32, v: u32 ensures WrappedKey(i, v) == WrappedKey(id, version) <==> (i, v) == (id, version) {
        StoreKeysAreDistinct(id, version, i, v);
      }
      StoreKeysAreDistinct(id, version, id, version);
      var plain := Unwrap(cipher, keyring, store[WrappedKey(id, version)]);
      var wrapped := TableKeyWrap(plain.value, next);
      if wrapped.None? { return false; }
      RewrapKeepsCustody(cipher, store, keyring, history, id, version, next, plain.value);
      ghost var mid := calls;
      ok := StorePut(WrappedKey(id, version), wrapped.value);
      FaultSplit(faults, old(calls), mid, calls);
    }

    /** The sweep over the versions of one id, up to the recorded latest. */
    method RewrapId(id: u32, next: u32) returns (ok: bool)
      requires Valid()
      modifies this`store, this`keyring, this`calls
      ensures Valid() && old(keyring.Keys) <= keyring.Keys && calls >= old(calls)
      ensures ok <==> !FaultIn(faults, old(calls), calls)
      ensures ok ==> forall v: u32 :: (id, v) in history ==> FramedWith(store, id, v) == Some(next)
      ensures forall v: u32 ::
        FramedWith(store, id, v) == old(FramedWith(store, id, v)) || FramedWith(store, id, v) == Some(next)
      ensures forall i: u32, v: u32 :: i != id ==> FramedWith(store, i, v) == old(FramedWith(store, i, v))
      ensures StoredGeneration(store) == old(StoredGeneration(store))
    {
      hide Custody, FramedWith, LatestOf, FaultIn, StoredGeneration;
      FaultOne(faults, calls);
      if LatestKey(id) !in store || |store[LatestKey(id)]| != FIELD_LEN {
        NotPublished(cipher, store, keyring, history, id);
        return true;
      }
      PublishedVersions(cipher, store, keyring, history, id);
      var latest := Be32Decode(store[LatestKey(id)]);
      var version: u32 := GENERATION_FIRST;
      while version <= latest && version <= MAX_ENCRYPTION_KEY_VERSIONS
        invariant Valid() && old(keyring.Keys) <= keyring.Keys && calls >= old(calls)
        invariant !FaultIn(faults, old(calls), calls)
        invariant forall v: u32 :: 1 <= v < version ==> FramedWith(store, id, v) == Some(next)
        invariant forall v: u32 ::
          FramedWith(store, id, v) == old(FramedWith(store, id, v)) || FramedWith(store, id, v) == Some(next)
        invariant forall i: u32, v: u32 :: i != id ==> FramedWith(store, i, v) == old(FramedWith(store, i, v))
        invariant StoredGeneration(store) == old(StoredGeneration(store))
        decreases 0x1_0000_0000 - version
      {
        ghost var mid := calls;
        ok := RewrapOne(id, version, next);
        FaultSplit(faults, old(calls), mid, calls);
        if !ok { return false; }
        version := version + 1;
      }
      return true;
    }

    /** tdb_crypto_rotate_master_key: sweep every id, then publish the generation. */
    method RotateMasterKey() returns (ok: bool)
      requires Valid()
      modifies this`store, this`keyring, this`generation, this`calls
      ensures Valid() && calls >= old(calls)
      ensures ok <==>
        CurrentGeneration(old(generation), old(store)) != GENERATION_NONE && !FaultIn(faults, old(calls), calls)
      ensures ok ==> generation == NextGeneration(CurrentGeneration(old(generation), old(store)))
      ensures ok ==> MASTER_SEQ_KEY in store && store[MASTER_SEQ_KEY] == Be32(generation)
      ensures ok ==> StoredGeneration(store) == generation
      ensures ok ==> AllFramed(store, history, generation)
      ensures forall id: u32, v: u32 :: !(1 <= id <= MAX_ENCRYPTION_KEY_ID) ==>
                FramedWith(store, id, v) == old(FramedWith(store, id, v))
      ensures !ok ==>
        HalfSwept(old(store), history, NextGeneration(CurrentGeneration(old(generation), old(store))), store)
      ensures !ok ==> generation == old(generation) || generation == CurrentGeneration(old(generation), old(store))
    {
      hide Custody, FramedWith, LatestOf, FaultIn, StoredGeneration, NextGeneration;
      MasterSeqKeepsFrames(store, Be32(GENERATION_FIRST));
      var current := MasterGenerationResolve();
      if current == GENERATION_NONE { return false; }
      var next := NextGeneration(current);
      ghost var mid := calls;
      var master := MasterKeyGet(next, true);
      FaultSplit(faults, old(calls), mid, calls);
      if master.None? { return false; }
      for id: u32 := 1 to MAX_ENCRYPTION_KEY_ID + 1
        invariant Valid() && generation == current && calls >= old(calls) && !FaultIn(faults, old(calls), calls)
        invariant forall i: u32, v: u32 :: (i, v) in history && 1 <= i < id ==> FramedWith(store, i, v) == Some(next)
        invariant forall i: u32, v: u32 :: !(1 <= i < id) ==> FramedWith(store, i, v) == old(FramedWith(store, i, v))
        invariant forall i: u32, v: u32 ::
          FramedWith(store, i, v) == old(FramedWith(store, i, v)) || FramedWith(store, i, v) == Some(next)
        invariant StoredGeneration(store) == old(StoredGeneration(store))
      {
        ghost var late := calls;
        ok := RewrapId(id, next);
        FaultSplit(faults, old(calls), late, calls);
        if !ok { return false; }
      }
      MasterSeqKeepsFrames(store, Be32(next));
      MasterSeqKeepsCustody(cipher, store, keyring, history, Be32(next));
      StoredNext(store, next);
      ghost var last := calls;
      ok := StorePut(MASTER_SEQ_KEY, Be32(next));
      FaultSplit(faults, old(calls), last, calls);
      if !ok { return false; }
      generation := next;
    }

    /** The server stops; only the cached generation is lost. */
    method Restart()
      requires Valid()
      modifies this`generation
      ensures Valid() && generation == GENERATION_NONE
    {
      generation := GENERATION_NONE;
    }

    /**
     Any run of operations, each of which may be cut short at any write. Every published key stays
     published and recovers to the bytes it had when first published. As long as the generations fit 32
     bits, no published key of an id a table can have is framed with a generation older than the one the
     last successful rotation of the master key left.
     */
    method Run(ops: seq<Op>)
      requires Valid() && Fresh(store, history, generation, floor, ceiling)
      requires forall i :: 0 <= i < |ops| && (ops[i].UseKey? || ops[i].RotateTable?) ==>
        |ops[i].random| == CRYPTO_KEY_LEN
      modifies this
      ensures Valid() && Extends(old(history), history)
      ensures forall id: u32, v: u32 :: (id, v) in old(history) ==>
                TableKey(cipher, store, keyring, id, v) == Some(old(history)[(id, v)])
      ensures ceiling <= old(ceiling) + |ops| && Fresh(store, history, generation, floor, ceiling)
      ensures old(ceiling) + |ops| < 0x1_0000_0000 && (exists i :: 0 <= i < |ops| && ops[i].RotateMaster?) ==>
        AtOne(store, history, generation, floor) || FaultIn(faults, old(calls), calls)
    {
      hide Custody, Fresh, AtOne, FaultIn;
      ghost var rotated := false;
      for i := 0 to |ops|
        invariant Valid() && Extends(old(history), history) && calls >= old(calls)
        invariant ceiling <= old(ceiling) + i && Fresh(store, history, generation, floor, ceiling)
        invariant rotated <==> exists j :: 0 <= j < i && ops[j].RotateMaster?
        invariant rotated && old(ceiling) + |ops| < 0x1_0000_0000 ==>
          AtOne(store, history, generation, floor) || FaultIn(faults, old(calls), calls)
      {
        ghost var mid := calls;
        RunOne(ops[i]);
        FaultSplit(faults, old(calls), mid, calls);
        rotated := rotated || ops[i].RotateMaster?;
      }
      PublishedRecover(cipher, store, keyring, history);
    }

    method RunOne(op: Op)
      requires Valid() && Fresh(store, history, generation, floor, ceiling)
      requires op.UseKey? || op.RotateTable? ==> |op.random| == CRYPTO_KEY_LEN
      modifies this
      ensures Valid() && Extends(old(history), history) && old(ceiling) <= ceiling <= old(ceiling) + 1
      ensures Fresh(store, history, generation, floor, ceiling) && calls >= old(calls)
      ensures floor == old(floor) || (op.RotateMaster? && floor == generation == StoredGeneration(store))
      ensures op.RotateMaster? && old(ceiling) < 0x1_0000_0000 ==>
        AtOne(store, history, generation, floor) || FaultIn(faults, old(calls), calls)
      ensures !op.RotateMaster? && old(ceiling) < 0x1_0000_0000 && old(AtOne(store, history, generation, floor)) ==>
        AtOne(store, history, generation, floor)
    {
      hide Custody, FramedWith, LatestOf, FaultIn, StoredGeneration, Fresh, FramesKept, HalfSwept, AtOne;
      if ceiling < 0x1_0000_0000 { FreshCurrent(store, history, generation, floor, ceiling); }
      ghost var s, h, g := store, history, generation;
      match op {
        case UseKey(id, random) =>
          var _ := LatestKeyVersion(id, random);
          FreshAfterTableKey(s, h, g, floor, ceiling, store, history, generation);
          AtOneAfterTableKey(s, h, g, floor, store, history, generation);
        case RotateTable(id, random) =>
          var _ := RotateTableKey(id, random);
          FreshAfterTableKey(s, h, g, floor, ceiling, store, history, generation);
          AtOneAfterTableKey(s, h, g, floor, store, history, generation);
        case RotateMaster =>
          var ok := RotateMasterKey();
          if ok {
            FreshAfterRotation(s, h, g, floor, ceiling, store);
            floor := generation;
            AtOneNow(store, history, generation);
          } else {
            FreshAfterAttempt(s, h, g, floor, ceiling, store, generation);
          }
          ceiling := ceiling + 1;
        case Crash =>
          Restart();
          FreshUncached(s, h, g, floor, ceiling);
          AtOneUncached(s, h, g, floor);
      }
    }
  }

  lemma FreshUncached(s: Store, h: History, cached: u32, floor: u32, ceiling: nat)
    requires Fresh(s, h, cached, floor, ceiling)
    ensures Fresh(s, h, GENERATION_NONE, floor, ceiling)
  {
    hide FramedWith, StoredGeneration;
  }

  lemma StoredNext(s: Store, next: u32)
    ensures StoredGeneration(s[MASTER_SEQ_KEY := Be32(next)]) == next
  {
    Be32RoundTrip(next);
  }

  /** Storing one wrapped key changes the frame of that key alone. */
  lemma WrappedFrames(s: Store, id: u32, v: u32, value: seq<byte>)
    ensures var t := s[WrappedKey(id, v) := value];
      && StoredGeneration(t) == StoredGeneration(s)
      && forall i: u32, w: u32 :: (i, w) != (id, v) ==> FramedWith(t, i, w) == FramedWith(s, i, w)
  {
    StoreKeysAreDistinct(id, v, id, v);
    forall i: u32, w: u32 | (i, w) != (id, v)
      ensures FramedWith(s[WrappedKey(id, v) := value], i, w) == FramedWith(s, i, w)
    {
      StoreKeysAreDistinct(id, v, i, w);
    }
  }

  /** Moving a version pointer changes no frame. */
  lemma LatestFrames(s: Store, id: u32, value: seq<byte>)
    ensures var t := s[LatestKey(id) := value];
      && StoredGeneration(t) == StoredGeneration(s)
      && forall i: u32, w: u32 :: FramedWith(t, i, w) == FramedWith(s, i, w)
  {
    StoreKeysAreDistinct(id, 0, id, 0);
    forall i: u32, w: u32 ensures FramedWith(s[LatestKey(id) := value], i, w) == FramedWith(s, i, w) {
      StoreKeysAreDistinct(i, w, id, 0);
    }
  }

  /** The ids the master-key sweep visits are all the ids the option parser lets a table have. */
  lemma KeyIdsAreSwept(json: string, names: TableOptions.Names, o: TableOptions.Options)
    requires |o| == TableOptions.OPTION_COUNT && TableOptions.InBounds(o, names)
    requires TableOptions.Parse(json, names, o).Parsed?
    ensures var opts := TableOptions.Parse(json, names, o).opts;
      |opts| == TableOptions.OPTION_COUNT && 1 <= opts[TableOptions.ENCRYPTION_KEY_ID] <= MAX_ENCRYPTION_KEY_ID
  {
    hide TableOptions.Parse;
    TableOptions.ParseKeepsBounds(json, names, o);
    var opts := TableOptions.Parse(json, names, o).opts;
    assert TableOptions.SlotOk(TableOptions.ENCRYPTION_KEY_ID, names, opts[TableOptions.ENCRYPTION_KEY_ID]);
  }

  lemma MasterSeqKeepsFrames(s: Store, value: seq<byte>)
    ensures forall i: u32, v: u32 :: FramedWith(s[MASTER_SEQ_KEY := value], i, v) == FramedWith(s, i, v)
  {
    forall i: u32, v: u32 ensures FramedWith(s[MASTER_SEQ_KEY := value], i, v) == FramedWith(s, i, v) {
      StoreKeysAreDistinct(i, v, i, v);
    }
  }

  lemma NotPublished(c: Cipher, s: Store, ring: Keyring, h: History, id: u32)
    requires Custody(c, s, ring, h)
    requires LatestKey(id) !in s || |s[LatestKey(id)]| != FIELD_LEN
    ensures forall v: u32 :: (id, v) !in h
  {
  }

  lemma PublishedVersions(c: Cipher, s: Store, ring: Keyring, h: History, id: u32)
    requires Custody(c, s, ring, h)
    requires LatestKey(id) in s && |s[LatestKey(id)]| == FIELD_LEN
    ensures Be32Decode(s[LatestKey(id)]) <= MAX_ENCRYPTION_KEY_VERSIONS
    ensures forall v: u32 :: (id, v) in h <==> 1 <= v <= Be32Decode(s[LatestKey(id)])
  {
    assert LatestOf(s, id) == Some(Be32Decode(s[LatestKey(id)]));
  }

  lemma FreshKeyRecovers(c: Cipher, s: Store, ring: Keyring, id: u32, v: u32, g: u32, key: seq<byte>)
    requires Sound(c) && g in ring && key != []
    ensures TableKey(c, s[WrappedKey(id, v) := Frame(g, c.wrap(ring[g], key))], ring, id, v) == Some(key)
  {
    ParseOfFrame(g, c.wrap(ring[g], key));
  }
}
