/** The compressed form of public key scripts: the standard ones become a type and a key or
    hash, the others are kept behind their length. */
module Scripts {
  import opened Options
  import opened Vlq

  const OP_DATA_20: Byte := 0x14
  const OP_DATA_33: Byte := 0x21
  const OP_DATA_65: Byte := 0x41
  const OP_DUP: Byte := 0x76
  const OP_EQUAL: Byte := 0x87
  const OP_EQUALVERIFY: Byte := 0x88
  const OP_HASH160: Byte := 0xa9
  const OP_CHECKSIG: Byte := 0xac

  const NUM_SPECIAL_SCRIPTS := 6

  /** No byte slice is this long. */
  const MAX_SLICE := 0x4000_0000_0000_0000

  /** Which serialized keys are valid, and the uncompressed form of a compressed key. */
  datatype Curve = Curve(valid: seq<Byte> -> bool, expand: seq<Byte> -> seq<Byte>)

  /** The compressed form of an uncompressed key: its x coordinate and the oddness of y. */
  function Shorten(key: seq<Byte>): seq<Byte>
    requires |key| == 65
  {
    [2 + key[64] % 2] + key[1..33]
  }

  /** Expanding inverts shortening for every valid uncompressed key. */
  ghost predicate Invertible(curve: Curve) {
    forall key :: |key| == 65 && key[0] == 4 && curve.valid(key) ==>
      curve.valid(Shorten(key)) && curve.expand(Shorten(key)) == key
  }

  type KeyCurve = c: Curve | Invertible(c) witness Curve(_ => false, key => key)

  predicate IsPubKeyHash(script: seq<Byte>) {
    && |script| == 25 && script[0] == OP_DUP && script[1] == OP_HASH160 && script[2] == OP_DATA_20
    && script[23] == OP_EQUALVERIFY && script[24] == OP_CHECKSIG
  }

  predicate IsScriptHash(script: seq<Byte>) {
    |script| == 23 && script[0] == OP_HASH160 && script[1] == OP_DATA_20 && script[22] == OP_EQUAL
  }

  predicate IsCompressedKey(script: seq<Byte>, curve: Curve) {
    && |script| == 35 && script[0] == OP_DATA_33 && script[34] == OP_CHECKSIG
    && (script[1] == 2 || script[1] == 3) && curve.valid(script[1..34])
  }

  predicate IsUncompressedKey(script: seq<Byte>, curve: Curve) {
    && |script| == 67 && script[0] == OP_DATA_65 && script[66] == OP_CHECKSIG
    && script[1] == 4 && curve.valid(script[1..66])
  }

  function Compressed(script: seq<Byte>, curve: Curve): seq<Byte> {
    if IsPubKeyHash(script) then [0] + script[3..23]
    else if IsScriptHash(script) then [1] + script[2..22]
    else if IsCompressedKey(script, curve) then [script[1]] + script[2..34]
    else if IsUncompressedKey(script, curve) then [4 + script[65] % 2] + script[2..34]
    else Encode(|script| + NUM_SPECIAL_SCRIPTS) + script
  }

  /** The script types recognized are disjoint from plain scripts' length codes. */
  predicate IsSpecial(script: seq<Byte>, curve: Curve) {
    IsPubKeyHash(script) || IsScriptHash(script) || IsCompressedKey(script, curve) || IsUncompressedKey(script, curve)
  }

  // ----- Writing -----

  method CompressedScriptSize(pkScript: seq<Byte>, curve: Curve) returns (size: nat)
    requires |pkScript| < MAX_SLICE
    ensures size == |Compressed(pkScript, curve)|
  {
    if IsPubKeyHash(pkScript) || IsScriptHash(pkScript) {
      return 21;
    }
    if IsCompressedKey(pkScript, curve) || IsUncompressedKey(pkScript, curve) {
      return 33;
    }
    size := SerializeSizeVLQ(|pkScript| + NUM_SPECIAL_SCRIPTS);
    size := size + |pkScript|;
  }

  /** Copies a byte string into the buffer from `start` on. */
  method CopyInto(target: array<Byte>, start: nat, s: seq<Byte>)
    requires start + |s| <= target.Length
    modifies target
    ensures target[..] == Overwrite(old(target[..]), start, s)
  {
    forall i | start <= i < start + |s| {
      target[i] := s[i - start];
    }
    IsOverwrite(old(target[..]), target[..], start, s);
  }

  /** Writes a type and what follows it. */
  method PutSpecial(target: array<Byte>, start: nat, kind: Byte, data: seq<Byte>)
    requires start + 1 + |data| <= target.Length
    modifies target
    ensures target[..] == Overwrite(old(target[..]), start, [kind] + data)
  {
    target[start] := kind;
    CopyInto(target, start + 1, data);
  }

  /** Compresses a script into the buffer from `start` on and touches nothing else. */
  method PutCompressedScript(target: array<Byte>, start: nat, pkScript: seq<Byte>, curve: Curve) returns (size: nat)
    requires |pkScript| < MAX_SLICE && start + |Compressed(pkScript, curve)| <= target.Length
    modifies target
    ensures size == |Compressed(pkScript, curve)|
    ensures target[..] == Overwrite(old(target[..]), start, Compressed(pkScript, curve))
  {
    hide Overwrite, Encode;
    if IsPubKeyHash(pkScript) {
      PutSpecial(target, start, 0, pkScript[3..23]);
      return 21;
    }
    if IsScriptHash(pkScript) {
      PutSpecial(target, start, 1, pkScript[2..22]);
      return 21;
    }
    if IsCompressedKey(pkScript, curve) {
      PutSpecial(target, start, pkScript[1], pkScript[2..34]);
      return 33;
    }
    if IsUncompressedKey(pkScript, curve) {
      PutSpecial(target, start, 4 + pkScript[65] % 2, pkScript[2..34]);
      return 33;
    }
    ghost var was := target[..];
    var vlqSizeLen := PutVLQ(target, start, |pkScript| + NUM_SPECIAL_SCRIPTS);
    CopyInto(target, start + vlqSizeLen, pkScript);
    OverwriteTwice(was, start, Encode(|pkScript| + NUM_SPECIAL_SCRIPTS), pkScript);
    size := vlqSizeLen + |pkScript|;
  }

  lemma OverwriteTwice(buffer: seq<Byte>, start: nat, s: seq<Byte>, t: seq<Byte>)
    requires start + |s| + |t| <= |buffer|
    ensures Overwrite(Overwrite(buffer, start, s), start + |s|, t) == Overwrite(buffer, start, s + t)
  {
  }

  // ----- Reading -----

  /** How many bytes the compressed script at the front of a byte string takes. */
  function Span(s: seq<Byte>): int {
    var (v, k) := Parse(s, 0);
    if k == 0 then 0
    else if v <= 1 then 21
    else if v <= 5 then 33
    else AsInt((v - NUM_SPECIAL_SCRIPTS + k) % TWO_64)
  }

  /** An unsigned word read as a signed one. */
  function AsInt(x: Uint64): int {
    if x < TWO_64 / 2 then x else x - TWO_64
  }

  method DecodeCompressedScriptSize(serialized: seq<Byte>) returns (size: int)
    ensures size == Span(serialized)
  {
    var scriptSize, bytesRead := DeserializeVLQ(serialized);
    if bytesRead == 0 {
      return 0;
    }
    if scriptSize <= 1 {
      return 21;
    }
    if scriptSize <= 5 {
      return 33;
    }
    return AsInt((scriptSize - NUM_SPECIAL_SCRIPTS + bytesRead) % TWO_64);
  }

  /** The script a compressed script stands for; none when it is cut short. */
  function Decompressed(s: seq<Byte>, curve: Curve): Option<seq<Byte>> {
    if s == [] then Some([])
    else
      var (v, k) := Parse(s, 0);
      if v == 0 then
        if k + 20 > |s| then None
        else Some([OP_DUP, OP_HASH160, OP_DATA_20] + s[k..k + 20] + [OP_EQUALVERIFY, OP_CHECKSIG])
      else if v == 1 then
        if k + 20 > |s| then None else Some([OP_HASH160, OP_DATA_20] + s[k..k + 20] + [OP_EQUAL])
      else if v <= 3 then
        if k + 32 > |s| then None else Some([OP_DATA_33, v] + s[k..k + 32] + [OP_CHECKSIG])
      else if v <= 5 then
        if |s| < 33 then None
        else if !curve.valid([v - 2] + s[1..33]) then Some([])
        else Some([OP_DATA_65] + curve.expand([v - 2] + s[1..33]) + [OP_CHECKSIG])
      else if k + (v - NUM_SPECIAL_SCRIPTS) > |s| then None
      else Some(s[k..k + (v - NUM_SPECIAL_SCRIPTS)])
  }

  lemma ParseKind(x: Byte, t: seq<Byte>)
    requires x < 128
    ensures Parse([x] + t, 0) == (x, 1)
  {
  }

  /** A compressed script is told apart from whatever follows it. */
  lemma SpanOfCompressed(script: seq<Byte>, curve: Curve, t: seq<Byte>)
    requires |script| < MAX_SLICE
    ensures Span(Compressed(script, curve) + t) == |Compressed(script, curve)|
  {
    var s := Compressed(script, curve);
    if IsSpecial(script, curve) {
      assert s + t == [s[0]] + (s[1..] + t);
      ParseKind(s[0], s[1..] + t);
    } else {
      assert s + t == Encode(|script| + NUM_SPECIAL_SCRIPTS) + (script + t);
      ParseEncode(|script| + NUM_SPECIAL_SCRIPTS, script + t);
      ShortEncoding(|script| + NUM_SPECIAL_SCRIPTS);
    }
  }

  lemma ShortEncoding(n: nat)
    ensures |Encode(n)| <= n / 128 + 1
  {
    SizeBound(n);
    GroupsLength(n, 0);
  }

  lemma {:induction false} SizeBound(n: nat)
    ensures Size(n) <= n / 128 + 1
  {
    if n > 127 {
      SizeBound(n / 128 - 1);
    }
  }

  lemma HashRoundTrip(script: seq<Byte>, curve: Curve)
    requires IsPubKeyHash(script) || IsScriptHash(script)
    ensures Decompressed(Compressed(script, curve), curve) == Some(script)
  {
    var s := Compressed(script, curve);
    ParseKind(s[0], s[1..]);
    assert s == [s[0]] + s[1..] && s[1..21] == s[1..];
    if IsPubKeyHash(script) {
      assert script == [OP_DUP, OP_HASH160, OP_DATA_20] + script[3..23] + [OP_EQUALVERIFY, OP_CHECKSIG];
    } else {
      assert script == [OP_HASH160, OP_DATA_20] + script[2..22] + [OP_EQUAL];
    }
  }

  lemma KeyRoundTrip(script: seq<Byte>, curve: Curve)
    requires Invertible(curve) && (IsCompressedKey(script, curve) || IsUncompressedKey(script, curve))
    ensures Decompressed(Compressed(script, curve), curve) == Some(script)
  {
    var s := Compressed(script, curve);
    ParseKind(s[0], s[1..]);
    assert s == [s[0]] + s[1..] && s[1..33] == script[2..34];
    if IsCompressedKey(script, curve) {
      assert script == [OP_DATA_33, script[1]] + script[2..34] + [OP_CHECKSIG];
    } else {
      var key := script[1..66];
      assert key[64] == script[65] && key[1..33] == script[2..34];
      assert s[0] == 4 + script[65] % 2;
      assert Shorten(key) == [s[0] - 2] + s[1..33];
      assert script == [OP_DATA_65] + key + [OP_CHECKSIG];
    }
  }

  /** Decompressing a compressed script gives the script back, byte for byte. */
  lemma ScriptRoundTrip(script: seq<Byte>, curve: Curve)
    requires Invertible(curve) && |script| < MAX_SLICE
    ensures Decompressed(Compressed(script, curve), curve) == Some(script)
  {
    if IsPubKeyHash(script) || IsScriptHash(script) {
      HashRoundTrip(script, curve);
    } else if IsSpecial(script, curve) {
      KeyRoundTrip(script, curve);
    } else {
      var code := Encode(|script| + NUM_SPECIAL_SCRIPTS);
      ParseEncode(|script| + NUM_SPECIAL_SCRIPTS, script);
      assert (code + script)[|code|..|code| + |script|] == script;
    }
  }

  // ----- The bytes of each kind -----

  /** Payments to a key hash are kept as kind 0 and the hash, payments to a script hash as kind 1
      and the hash, and both are made again from that. */
  lemma HashKinds(hash: seq<Byte>, curve: Curve)
    requires |hash| == 20
    ensures
      var toKey, toScript := [0x76, 0xa9, 0x14] + hash + [0x88, 0xac], [0xa9, 0x14] + hash + [0x87];
      && Compressed(toKey, curve) == [0] + hash && Decompressed([0] + hash, curve) == Some(toKey)
      && Compressed(toScript, curve) == [1] + hash && Decompressed([1] + hash, curve) == Some(toScript)
  {
    var toKey, toScript := [0x76, 0xa9, 0x14] + hash + [0x88, 0xac], [0xa9, 0x14] + hash + [0x87];
    assert toKey[3..23] == hash && toScript[2..22] == hash;
    HashRoundTrip(toKey, curve);
    HashRoundTrip(toScript, curve);
  }

  /** A payment to a valid key is kept as one byte and the x coordinate: kind 2 or 3 for a
      compressed key, 4 or 5 by the oddness of y for an uncompressed one. */
  lemma KeyKinds(x: seq<Byte>, y: seq<Byte>, sign: Byte, curve: Curve)
    requires |x| == 32 && |y| == 32 && (sign == 2 || sign == 3)
    ensures curve.valid([sign] + x) ==> Compressed([0x21, sign] + x + [0xac], curve) == [sign] + x
    ensures curve.valid([4] + x + y) ==>
      Compressed([0x41, 4] + x + y + [0xac], curve) == [if y[31] % 2 == 1 then 5 else 4] + x
  {
    var short, long := [0x21, sign] + x + [0xac], [0x41, 4] + x + y + [0xac];
    assert short[1..34] == [sign] + x && short[2..34] == x;
    assert long[1..66] == [4] + x + y && long[2..34] == x && long[65] == y[31];
  }

  /** Any other script is kept whole, after its length plus six. */
  lemma PlainKind(script: seq<Byte>, curve: Curve)
    requires !IsPubKeyHash(script) && !IsScriptHash(script)
    requires !IsCompressedKey(script, curve) && !IsUncompressedKey(script, curve)
    ensures Compressed(script, curve) == Encode(|script| + 6) + script
  {
  }
}
