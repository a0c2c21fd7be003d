/** Database keys of transaction outputs: the transaction hash, then the output index. */
module Outpoints {
  import opened Options
  import opened Scripts
  import opened Vlq

  const HASH_SIZE := 32
  const MAX_INDEX := 0xffff_ffff

  /** The longest encoding of an index. */
  const MAX_INDEX_SIZE := 5

  ghost predicate IsHash(hash: seq<Byte>) {
    |hash| == HASH_SIZE
  }

  function Key(hash: seq<Byte>, index: nat): seq<Byte> {
    hash + Encode(index)
  }

  /** Different outputs have different keys. */
  lemma KeyInjective(hash: seq<Byte>, index: nat, hash': seq<Byte>, index': nat)
    requires |hash| == |hash'| && Key(hash, index) == Key(hash', index')
    ensures hash == hash' && index == index'
  {
    var key := Key(hash, index);
    assert hash == key[..|hash|] && hash' == key[..|hash|];
    assert Encode(index) == key[|hash|..] && Encode(index') == key[|hash|..];
    EncodeBijective(index, []);
    EncodeBijective(index', []);
  }

  lemma IndexFits(index: nat)
    requires index <= MAX_INDEX
    ensures |Encode(index)| <= MAX_INDEX_SIZE
  {
    GroupsLength(index, 0);
    SizeMonotone(index, MAX_INDEX);
    assert MAX_INDEX / 128 - 1 == 33554430 && 33554430 / 128 - 1 == 262142 && 262142 / 128 - 1 == 2046 &&
      2046 / 128 - 1 == 14;
    assert Size(14) == 1 && Size(2046) == 2 && Size(262142) == 3 && Size(33554430) == 4 && Size(MAX_INDEX) == 5;
  }

  lemma {:induction false} SizeMonotone(a: nat, b: nat)
    requires a <= b
    ensures Size(a) <= Size(b)
    decreases b
  {
    if a > 127 {
      SizeMonotone(a / 128 - 1, b / 128 - 1);
    }
  }

  /** Builds a key in a buffer from the pool, which every index fits. */
  method OutpointKey(buffer: array<Byte>, hash: seq<Byte>, index: nat) returns (size: nat)
    requires buffer.Length == HASH_SIZE + MAX_INDEX_SIZE && IsHash(hash) && index <= MAX_INDEX
    modifies buffer
    ensures size <= buffer.Length && buffer[..size] == Key(hash, index)
  {
    hide Encode;
    IndexFits(index);
    var indexSize := SerializeSizeVLQ(index);
    size := HASH_SIZE + indexSize;
    ghost var was := buffer[..];
    CopyInto(buffer, 0, hash);
    var n := PutVLQ(buffer, HASH_SIZE, index);
    OverwriteTwice(was, 0, hash, Encode(index));
  }

  // ----- Looking up any output of a transaction -----

  /** A cursor stops at the first key that is not before the one sought. */
  ghost predicate IsSeek(keys: set<seq<Byte>>, sought: seq<Byte>, found: Option<seq<Byte>>) {
    match found
    case None => forall k :: k in keys ==> Less(k, sought)
    case Some(key) => key in keys && !Less(key, sought) && forall k :: k in keys && !Less(k, sought) ==> !Less(k, key)
  }

  /** Whether the key at the cursor belongs to the transaction. */
  predicate Matches(found: Option<seq<Byte>>, hash: seq<Byte>) {
    found.Some? && |found.value| >= |hash| && hash == found.value[..|hash|]
  }

  ghost predicate OnlyOutpoints(keys: set<seq<Byte>>) {
    forall k :: k in keys ==> exists hash, index :: IsHash(hash) && k == Key(hash, index)
  }

  /** Whatever lies between two strings with a common prefix has that prefix. */
  lemma {:induction false} BetweenHasPrefix(p: seq<Byte>, x: seq<Byte>, y: seq<Byte>, k: seq<Byte>)
    requires !Less(k, p + x) && !Less(p + y, k) && x != []
    ensures |k| >= |p| && k[..|p|] == p
    decreases |p|
  {
    if p != [] {
      assert (p + x)[1..] == p[1..] + x && (p + y)[1..] == p[1..] + y;
      BetweenHasPrefix(p[1..], x, y, k[1..]);
      assert k[..|p|] == [k[0]] + k[1..][..|p| - 1];
    }
  }

  /** No encoding comes before the encoding of zero. */
  lemma ZeroFirst(hash: seq<Byte>, index: nat)
    ensures !Less(Key(hash, index), Key(hash, 0))
  {
    LessAppend(hash, hash, Encode(index), Encode(0));
    EncodeBijective(index, []);
    assert Encode(0) == [0];
  }

  /** Seeking the key of a transaction's first output finds some output of the transaction
      exactly when there is one. */
  lemma SeekFindsTransaction(keys: set<seq<Byte>>, hash: seq<Byte>, found: Option<seq<Byte>>)
    requires OnlyOutpoints(keys) && IsHash(hash) && IsSeek(keys, Key(hash, 0), found)
    ensures Matches(found, hash) <==> exists index :: Key(hash, index) in keys
    ensures Matches(found, hash) ==> exists index :: found.value == Key(hash, index) && found.value in keys
  {
    if Matches(found, hash) {
      var h, index :| IsHash(h) && found.value == Key(h, index);
      assert h == found.value[..HASH_SIZE];
      assert Key(hash, index) in keys;
    }
    if index :| Key(hash, index) in keys {
      ZeroFirst(hash, index);
      BetweenHasPrefix(hash, Encode(0), Encode(index), found.value);
    }
  }
}
