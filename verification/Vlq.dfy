/** Variable-length quantities: base 128, most significant group first, one subtracted from
    every group that another one follows. */
module Vlq {
  type Byte = x: int | 0 <= x < 256

  const TWO_64: nat := 0x1_0000_0000_0000_0000

  type Uint64 = x: int | 0 <= x < TWO_64

  /** The groups of `n`, most significant first; the last one carries `high`, the ones
      before it the continuation bit. */
  function Groups(n: nat, high: nat): (s: seq<Byte>)
    requires high == 0 || high == 128
    ensures s != []
  {
    (if n <= 127 then [] else Groups(n / 128 - 1, 128)) + [n % 128 + high]
  }

  function Encode(n: nat): (s: seq<Byte>) {
    Groups(n, 0)
  }

  /** Exactly the last byte has no continuation bit. */
  predicate WellFormed(s: seq<Byte>) {
    s != [] && s[|s| - 1] < 128 && forall i :: 0 <= i < |s| - 1 ==> s[i] >= 128
  }

  /** The number a run of groups stands for. */
  function Value(s: seq<Byte>): nat
    requires s != []
  {
    if |s| == 1 then s[0] % 128 else (Value(s[..|s| - 1]) + 1) * 128 + s[|s| - 1] % 128
  }

  // ----- One encoding for each number, one number for each encoding -----

  lemma {:induction false} GroupsShape(n: nat, high: nat)
    requires high == 0 || high == 128
    ensures forall i :: 0 <= i < |Groups(n, high)| - 1 ==> Groups(n, high)[i] >= 128
    ensures Groups(n, high)[|Groups(n, high)| - 1] >= 128 <==> high == 128
  {
    if n > 127 {
      GroupsShape(n / 128 - 1, 128);
    }
  }

  lemma ValueAppend(init: seq<Byte>, x: Byte)
    requires init != []
    ensures Value(init + [x]) == (Value(init) + 1) * 128 + x % 128
  {
    assert (init + [x])[..|init|] == init;
  }

  lemma {:induction false} ValueOfGroups(n: nat, high: nat)
    requires high == 0 || high == 128
    ensures Value(Groups(n, high)) == n
  {
    hide Value;
    if n > 127 {
      ValueOfGroups(n / 128 - 1, 128);
      ValueAppend(Groups(n / 128 - 1, 128), n % 128 + high);
    } else {
      assert Groups(n, high) == [n + high];
      ValueOne(n + high);
    }
  }

  lemma ValueOne(x: Byte)
    ensures Value([x]) == x % 128
  {
  }

  /** A number put together from its low group and what stays above it. */
  lemma Unpeel(q: nat, r: nat, high: nat)
    requires r < 128 && (high == 0 || high == 128)
    ensures Groups((q + 1) * 128 + r, high) == Groups(q, 128) + [r + high]
  {
    var n := (q + 1) * 128 + r;
    assert n / 128 - 1 == q && n % 128 == r;
  }

  lemma OneGroup(x: Byte, high: nat)
    requires (high == 0 || high == 128) && (x >= 128 <==> high == 128)
    ensures Groups(Value([x]), high) == [x]
  {
    assert x % 128 == x - high;
  }

  lemma AppendGroup(init: seq<Byte>, last: Byte, high: nat)
    requires init != [] && (high == 0 || high == 128) && (last >= 128 <==> high == 128)
    requires Groups(Value(init), 128) == init
    ensures Groups(Value(init + [last]), high) == init + [last]
  {
    hide Groups;
    var s := init + [last];
    assert s[..|s| - 1] == init;
    Unpeel(Value(init), last % 128, high);
  }

  lemma {:induction false} GroupsOfValue(s: seq<Byte>, high: nat)
    requires s != [] && (high == 0 || high == 128) && (s[|s| - 1] >= 128 <==> high == 128)
    requires forall i :: 0 <= i < |s| - 1 ==> s[i] >= 128
    ensures Groups(Value(s), high) == s
    decreases |s|
  {
    hide Groups, Value;
    if |s| == 1 {
      assert s == [s[0]];
      OneGroup(s[0], high);
    } else {
      GroupsOfValue(s[..|s| - 1], 128);
      AppendGroup(s[..|s| - 1], s[|s| - 1], high);
      assert s == s[..|s| - 1] + [s[|s| - 1]];
    }
  }

  /** Encoding is a bijection from the naturals to the well-formed byte strings, and
      `Value` is its inverse. */
  lemma EncodeBijective(n: nat, s: seq<Byte>)
    ensures WellFormed(Encode(n)) && Value(Encode(n)) == n
    ensures WellFormed(s) ==> Encode(Value(s)) == s
  {
    GroupsShape(n, 0);
    ValueOfGroups(n, 0);
    if WellFormed(s) {
      GroupsOfValue(s, 0);
    }
  }

  // ----- Sizes -----

  function Size(n: nat): (k: nat)
    ensures k >= 1
  {
    if n <= 127 then 1 else 1 + Size(n / 128 - 1)
  }

  lemma {:induction false} GroupsLength(n: nat, high: nat)
    requires high == 0 || high == 128
    ensures |Groups(n, high)| == Size(n)
  {
    if n > 127 {
      GroupsLength(n / 128 - 1, 128);
    }
  }

  /** The number of bytes a number takes. */
  method SerializeSizeVLQ(n: Uint64) returns (size: nat)
    ensures size == |Encode(n)|
  {
    GroupsLength(n, 0);
    size := 1;
    var m := n;
    while m > 0x7f
      invariant 0 <= m < TWO_64 && size + Size(m) - 1 == Size(n)
      decreases m
    {
      m := m / 128 - 1;
      size := size + 1;
    }
  }

  // ----- Writing -----

  /** The low group of a number and what stays above it. */
  lemma Peel(n: nat, high: nat)
    requires high == 0 || high == 128
    ensures
      var s := Groups(n, high);
      && s[|s| - 1] == n % 128 + high
      && (n <= 127 ==> |s| == 1)
      && (n > 127 ==> s[..|s| - 1] == Groups(n / 128 - 1, 128))
  {
  }

  /** Outside the stretch the buffer is as it was. */
  ghost predicate Outside(before: seq<Byte>, after: seq<Byte>, start: nat, size: nat) {
    && |after| == |before|
    && forall p :: 0 <= p < |before| && (p < start || start + size <= p) ==> after[p] == before[p]
  }

  /** The lowest `offset` groups are in the buffer, lowest first, and nothing else changed. */
  ghost predicate Written(was: seq<Byte>, now: seq<Byte>, start: nat, offset: nat, enc: seq<Byte>) {
    && Outside(was, now, start, offset) && offset <= |enc| && start + |enc| <= |was|
    && forall p :: start <= p < start + offset ==> now[p] == enc[start + |enc| - 1 - p]
  }

  lemma WrittenNext(was: seq<Byte>, now: seq<Byte>, start: nat, offset: nat, enc: seq<Byte>, x: Byte)
    requires Written(was, now, start, offset, enc) && offset < |enc| && x == enc[|enc| - 1 - offset]
    ensures start + offset < |now| && Written(was, now[start + offset := x], start, offset + 1, enc)
  {
  }

  /** One step up the groups of an encoding. */
  lemma GroupsNext(m: nat, high: nat, enc: seq<Byte>, offset: nat)
    requires (high == 0 || high == 128) && offset < |enc| && Groups(m, high) == enc[..|enc| - offset]
    ensures enc[|enc| - 1 - offset] == m % 128 + high
    ensures m <= 127 ==> offset == |enc| - 1
    ensures m > 127 ==> offset + 1 < |enc| && Groups(m / 128 - 1, 128) == enc[..|enc| - offset - 1]
  {
    Peel(m, high);
    assert enc[..|enc| - offset][..|enc| - offset - 1] == enc[..|enc| - offset - 1];
  }

  /** Writes the groups from the lowest up. */
  method PutReversed(target: array<Byte>, start: nat, n: Uint64) returns (offset: nat)
    requires start + |Encode(n)| <= target.Length
    modifies target
    ensures offset == |Encode(n)| - 1
    ensures Written(old(target[..]), target[..], start, offset + 1, Encode(n))
  {
    hide Groups, Written;
    ghost var was, enc := target[..], Encode(n);
    NothingWritten(was, start, enc);
    offset := 0;
    var m := n;
    while true
      invariant 0 <= m < TWO_64 && offset < |enc|
      invariant Groups(m, if offset == 0 then 0 else 128) == enc[..|enc| - offset]
      invariant Written(was, target[..], start, offset, enc)
      decreases m
    {
      var highBitMask := if offset == 0 then 0x00 else 0x80;
      GroupsNext(m, highBitMask, enc, offset);
      var group: Byte := m % 128 + highBitMask;
      WrittenNext(was, target[..], start, offset, enc, group);
      ghost var now := target[..];
      target[start + offset] := group;
      assert target[..] == now[start + offset := group];
      if m <= 0x7f {
        break;
      }
      m := m / 128 - 1;
      offset := offset + 1;
    }
  }

  lemma NothingWritten(was: seq<Byte>, start: nat, enc: seq<Byte>)
    requires start + |enc| <= |was|
    ensures Written(was, was, start, 0, enc)
  {
  }

  /** Swaps a stretch of the buffer end for end. */
  method ReverseStretch(target: array<Byte>, start: nat, offset: nat)
    requires start + offset < target.Length
    modifies target
    ensures forall p :: start <= p <= start + offset ==> target[p] == old(target[start + (start + offset) - p])
    ensures Outside(old(target[..]), target[..], start, offset + 1)
  {
    ghost var was := target[..];
    var i, j := start, start + offset;
    while i < j
      invariant start <= i <= j + 1 && i + j == start + (start + offset)
      invariant forall p :: start <= p < i || j < p <= start + offset ==> target[p] == was[start + (start + offset) - p]
      invariant forall p :: i <= p <= j ==> target[p] == was[p]
      invariant Outside(was, target[..], start, offset + 1)
    {
      target[i], target[j] := target[j], target[i];
      i, j := i + 1, j - 1;
    }
  }

  /** A buffer with a stretch overwritten. */
  function Overwrite(buffer: seq<Byte>, start: nat, s: seq<Byte>): (r: seq<Byte>)
    requires start + |s| <= |buffer|
    ensures |r| == |buffer|
  {
    buffer[..start] + s + buffer[start + |s|..]
  }

  lemma IsOverwrite(before: seq<Byte>, after: seq<Byte>, start: nat, s: seq<Byte>)
    requires start + |s| <= |before| && Outside(before, after, start, |s|)
    requires forall p :: start <= p < start + |s| ==> after[p] == s[p - start]
    ensures after == Overwrite(before, start, s)
  {
  }

  /** Writes a number into the buffer from `start` on and touches nothing else. */
  method PutVLQ(target: array<Byte>, start: nat, n: Uint64) returns (size: nat)
    requires start + |Encode(n)| <= target.Length
    modifies target
    ensures size == |Encode(n)|
    ensures target[..] == Overwrite(old(target[..]), start, Encode(n))
  {
    hide Encode;
    ghost var was := target[..];
    var offset := PutReversed(target, start, n);
    ghost var mid := target[..];
    ReverseStretch(target, start, offset);
    size := offset + 1;
    forall p | start <= p < start + size
      ensures target[..][p] == Encode(n)[p - start]
    {
      assert target[p] == mid[start + (start + offset) - p];
    }
    IsOverwrite(was, target[..], start, Encode(n));
  }

  // ----- Reading -----

  /** What the reader makes of a byte string, starting from an accumulator: the number, in
      64-bit arithmetic, and how many bytes it took. */
  function Parse(s: seq<Byte>, acc: Uint64): (r: (Uint64, nat))
    ensures r.1 <= |s|
  {
    if s == [] then (acc, 0)
    else
      var n := Shift(acc) + s[0] % 128;
      if s[0] < 128 then (n, 1)
      else
        var rest := Parse(s[1..], (n + 1) % TWO_64);
        (rest.0, rest.1 + 1)
  }

  /** A 64-bit word shifted left by seven. */
  function Shift(acc: Uint64): (n: Uint64)
    ensures n <= TWO_64 - 128
    ensures acc * 128 < TWO_64 ==> n == acc * 128
  {
    acc % 0x200_0000_0000_0000 * 128
  }

  /** Reads a number from the front of a byte string. */
  method DeserializeVLQ(serialized: seq<Byte>) returns (n: Uint64, size: nat)
    ensures (n, size) == Parse(serialized, 0)
  {
    n, size := 0, 0;
    while size < |serialized|
      invariant size <= |serialized|
      invariant Parse(serialized, 0) == (Parse(serialized[size..], n).0, size + Parse(serialized[size..], n).1)
    {
      var val := serialized[size];
      n := Shift(n) + val % 128;
      size := size + 1;
      if val < 0x80 {
        return;
      }
      n := (n + 1) % TWO_64;
      assert serialized[size - 1..][1..] == serialized[size..];
    }
  }

  lemma ParseOne(acc: Uint64, x: Byte, t: seq<Byte>)
    requires acc * 128 + x - 127 < TWO_64 && x >= 128
    ensures Parse([x] + t, acc) == (Parse(t, acc * 128 + x - 127).0, 1 + Parse(t, acc * 128 + x - 127).1)
  {
    hide Shift;
    NoOverflow(acc, x);
    assert ([x] + t)[1..] == t;
  }

  lemma NoOverflow(acc: Uint64, x: Byte)
    requires acc * 128 + x - 127 < TWO_64 && x >= 128
    ensures Shift(acc) + x % 128 == acc * 128 + x - 128
    ensures (Shift(acc) + x % 128 + 1) % TWO_64 == acc * 128 + x - 127
  {
  }

  lemma ParseLast(acc: Uint64, x: Byte, t: seq<Byte>)
    requires acc * 128 + x < TWO_64 && x < 128
    ensures Parse([x] + t, acc) == (acc * 128 + x, 1)
  {
  }

  /** Reading the groups of `n`, all with the continuation bit, leaves the accumulator one
      above `n`. */
  lemma {:induction false} ParseGroups(n: nat, t: seq<Byte>)
    requires n + 1 < TWO_64
    ensures Parse(Groups(n, 128) + t, 0) == (Parse(t, n + 1).0, |Groups(n, 128)| + Parse(t, n + 1).1)
    decreases n
  {
    hide Parse;
    var x := n % 128 + 128;
    if n > 127 {
      ParseGroups(n / 128 - 1, [x] + t);
      assert Groups(n, 128) + t == Groups(n / 128 - 1, 128) + ([x] + t);
    } else {
      assert Groups(n, 128) == [x];
    }
    ParseOne(if n > 127 then n / 128 else 0, x, t);
  }

  /** Every 64-bit number is read back, whatever follows it, with no overflow on the way. */
  lemma ParseEncode(n: Uint64, t: seq<Byte>)
    ensures Parse(Encode(n) + t, 0) == (n, |Encode(n)|)
  {
    hide Parse;
    if n > 127 {
      ParseGroups(n / 128 - 1, [n % 128] + t);
      assert Encode(n) == Groups(n / 128 - 1, 128) + [n % 128];
      assert Encode(n) + t == Groups(n / 128 - 1, 128) + ([n % 128] + t);
    } else {
      assert Encode(n) == [n % 128];
    }
    ParseLast(n / 128, n % 128, t);
  }

  // ----- Order -----

  /** The order of byte strings in the database. */
  predicate Less(s: seq<Byte>, t: seq<Byte>) {
    t != [] && (s == [] || s[0] < t[0] || (s[0] == t[0] && Less(s[1..], t[1..])))
  }

  lemma {:induction false} LessAppend(s: seq<Byte>, t: seq<Byte>, x: seq<Byte>, y: seq<Byte>)
    requires |s| == |t|
    ensures Less(s, t) ==> Less(s + x, t + y)
    ensures s == t ==> (Less(s + x, t + y) <==> Less(x, y))
  {
    if s == [] {
      assert s + x == x && t + y == y;
    } else {
      assert (s + x)[1..] == s[1..] + x && (t + y)[1..] == t[1..] + y;
      LessAppend(s[1..], t[1..], x, y);
    }
  }

  /** Among encodings of one length the byte order is the numeric order. */
  lemma {:induction false} SameSizeOrdered(a: nat, b: nat, high: nat)
    requires (high == 0 || high == 128) && Size(a) == Size(b) && a < b
    ensures Less(Groups(a, high), Groups(b, high))
    decreases a
  {
    if a > 127 {
      var p, q := a / 128 - 1, b / 128 - 1;
      GroupsLength(p, 128);
      GroupsLength(q, 128);
      LessAppend(Groups(p, 128), Groups(q, 128), [a % 128 + high], [b % 128 + high]);
      if p < q {
        SameSizeOrdered(p, q, 128);
      }
    }
  }

  /** The byte order is the numeric order on all numbers up to some bound exactly when the
      bound is at most 16511, the largest two-byte number. */
  lemma OrderedUpTo(bound: nat)
    ensures (forall a, b :: 0 <= a < b <= bound ==> Less(Encode(a), Encode(b))) <==> bound <= 16511
  {
    if bound <= 16511 {
      forall a, b | 0 <= a < b <= bound
        ensures Less(Encode(a), Encode(b))
      {
        ShortOrdered(a, b);
      }
    } else {
      assert Encode(16511) == [255, 127];
      assert Groups(0, 128) == [128] && Groups(128, 128) == [128, 128] && Encode(16512) == [128, 128, 0];
      assert !Less(Encode(16511), Encode(16512));
    }
  }

  lemma ShortOrdered(a: nat, b: nat)
    requires a < b <= 16511
    ensures Less(Encode(a), Encode(b))
  {
    if a > 127 || b <= 127 {
      assert Size(a) == Size(b);
      SameSizeOrdered(a, b, 0);
    } else {
      GroupsShape(b, 0);
      assert Encode(a) == [a] && |Encode(b)| > 1;
    }
  }

  // ----- Documented encodings -----

  /** One byte up to 127, two up to 16511, three up to 2113663. */
  lemma EncodedSizes(n: nat)
    ensures |Encode(n)| == 1 <==> n <= 127
    ensures |Encode(n)| == 2 <==> 128 <= n <= 16511
    ensures |Encode(n)| == 3 <==> 16512 <= n <= 2113663
  {
    GroupsLength(n, 0);
    assert n > 127 ==> Size(n) == 1 + Size(n / 128 - 1);
    assert n > 16511 ==> Size(n / 128 - 1) == 1 + Size((n / 128 - 1) / 128 - 1);
    assert n > 2113663 ==> Size((n / 128 - 1) / 128 - 1) > 1;
  }

  lemma Examples()
    ensures Encode(0) == [0x00] && Encode(127) == [0x7f] && Encode(128) == [0x80, 0x00]
    ensures Encode(129) == [0x80, 0x01] && Encode(255) == [0x80, 0x7f] && Encode(256) == [0x81, 0x00]
    ensures Encode(16511) == [0xff, 0x7f]
  {
  }

  lemma LongExamples()
    ensures Encode(16512) == [0x80, 0x80, 0x00] && Encode(32895) == [0x80, 0xff, 0x7f]
    ensures Encode(2113663) == [0xff, 0xff, 0x7f] && Encode(270549119) == [0xff, 0xff, 0xff, 0x7f]
  {
    hide Groups;
    Unroll(0, 128);
    Unroll(127, 128);
    Unroll(128, 128);
    Unroll(255, 128);
    Unroll(16511, 128);
    Unroll(2113663, 128);
    Unroll(16512, 0);
    Unroll(32895, 0);
    Unroll(2113663, 0);
    Unroll(270549119, 0);
  }

  lemma Unroll(n: nat, high: nat)
    requires high == 0 || high == 128
    ensures Groups(n, high) == (if n <= 127 then [] else Groups(n / 128 - 1, 128)) + [n % 128 + high]
  {
  }
}
