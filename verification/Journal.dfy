/** Transaction outputs as the database keeps them, and the spend journal of a block. */
module Journal {
  import opened Amounts
  import opened Options
  import opened Scripts
  import opened Vlq

  // ----- Transaction outputs -----

  /** An amount and a script, both compressed. */
  function TxOutBytes(amount: Uint64, pkScript: seq<Byte>, curve: Curve): seq<Byte> {
    Encode(Compress(amount) % TWO_64) + Compressed(pkScript, curve)
  }

  method CompressedTxOutSize(amount: Uint64, pkScript: seq<Byte>, curve: Curve) returns (size: nat)
    requires |pkScript| < MAX_SLICE
    ensures size == |TxOutBytes(amount, pkScript, curve)|
  {
    var code := CompressTxOutAmount(amount);
    var codeSize := SerializeSizeVLQ(code);
    var scriptSize := CompressedScriptSize(pkScript, curve);
    return codeSize + scriptSize;
  }

  method PutCompressedTxOut(target: array<Byte>, start: nat, amount: Uint64, pkScript: seq<Byte>, curve: Curve)
    returns (size: nat)
    requires |pkScript| < MAX_SLICE && start + |TxOutBytes(amount, pkScript, curve)| <= target.Length
    modifies target
    ensures size == |TxOutBytes(amount, pkScript, curve)|
    ensures target[..] == Overwrite(old(target[..]), start, TxOutBytes(amount, pkScript, curve))
  {
    hide Compressed, Compress, Encode;
    ghost var was := target[..];
    var code := CompressTxOutAmount(amount);
    var offset := PutVLQ(target, start, code);
    var scriptSize := PutCompressedScript(target, start + offset, pkScript, curve);
    OverwriteTwice(was, start, Encode(code), Compressed(pkScript, curve));
    size := offset + scriptSize;
  }

  /** The amount and the script at the front of a byte string, and how many bytes they
      take; none when the bytes are cut short. */
  function DecodeTxOut(s: seq<Byte>, curve: Curve): (r: Option<(Uint64, seq<Byte>, nat)>) {
    var (code, k) := Parse(s, 0);
    if k >= |s| then None
    else
      var span := Span(s[k..]);
      if !(0 <= span <= |s| - k) then None
      else
        match Decompressed(s[k..k + span], curve)
        case None => None
        case Some(script) => Some((Decompress(code) % TWO_64, script, k + span))
  }

  /** The amount that comes back for an amount. */
  function Restored(amount: Uint64): Uint64 {
    Decompress(Compress(amount) % TWO_64) % TWO_64
  }

  /** An output is read back whatever follows it, and exactly its bytes are taken.  The script
      is the one written, the amount is if and only if its code fits. */
  lemma TxOutRoundTrip(amount: Uint64, pkScript: seq<Byte>, curve: Curve, t: seq<Byte>)
    requires Invertible(curve) && |pkScript| < MAX_SLICE
    ensures DecodeTxOut(TxOutBytes(amount, pkScript, curve) + t, curve) ==
            Some((Restored(amount), pkScript, |TxOutBytes(amount, pkScript, curve)|))
    ensures Restored(amount) == amount <==> Fits(amount)
  {
    hide Compressed, Decompressed, Compress, Decompress, Encode, Parse, Span, Fits, Invertible;
    var code, script := Encode(Compress(amount) % TWO_64), Compressed(pkScript, curve);
    var s := TxOutBytes(amount, pkScript, curve) + t;
    assert s == code + (script + t);
    ParseEncode(Compress(amount) % TWO_64, script + t);
    assert s[|code|..] == script + t;
    SpanOfCompressed(pkScript, curve, t);
    assert s[|code|..|code| + |script|] == script;
    ScriptRoundTrip(pkScript, curve);
    AmountRoundTrip(amount);
    assert script != [] by {
      CompressedNonempty(pkScript, curve);
    }
  }

  lemma CompressedNonempty(pkScript: seq<Byte>, curve: Curve)
    ensures Compressed(pkScript, curve) != []
  {
  }

  // ----- Spent outputs -----

  type Int32 = x: int | -0x8000_0000 <= x < 0x8000_0000
  type Int64 = x: int | -0x8000_0000_0000_0000 <= x < 0x8000_0000_0000_0000

  datatype SpentTxOut = SpentTxOut(amount: Int64, pkScript: seq<Byte>, height: Int32, isCoinBase: bool)

  /** A spent output whose script is a byte slice. */
  type Spent = s: SpentTxOut | |s.pkScript| < MAX_SLICE witness SpentTxOut(0, [], 0, false)

  /** The height shifted left by one, with the coinbase flag in the low bit. */
  function HeaderCode(stxo: SpentTxOut): Uint64 {
    (stxo.height * 2 + if stxo.isCoinBase then 1 else 0) % TWO_64
  }

  /** The header code, and a reserved field when the height is positive. */
  function HeaderBytes(stxo: SpentTxOut): seq<Byte> {
    Encode(HeaderCode(stxo)) + if stxo.height > 0 then Encode(0) else []
  }

  function SpentBytes(stxo: SpentTxOut, curve: Curve): seq<Byte> {
    HeaderBytes(stxo) + TxOutBytes(stxo.amount % TWO_64, stxo.pkScript, curve)
  }

  method SpentTxOutSerializeSize(stxo: Spent, curve: Curve) returns (size: nat)
    ensures size == |SpentBytes(stxo, curve)|
  {
    size := SerializeSizeVLQ(HeaderCode(stxo));
    if stxo.height > 0 {
      var reserved := SerializeSizeVLQ(0);
      size := size + reserved;
    }
    var txOut := CompressedTxOutSize(stxo.amount % TWO_64, stxo.pkScript, curve);
    size := size + txOut;
  }

  method PutHeader(target: array<Byte>, start: nat, stxo: SpentTxOut) returns (size: nat)
    requires start + |HeaderBytes(stxo)| <= target.Length
    modifies target
    ensures size == |HeaderBytes(stxo)|
    ensures target[..] == Overwrite(old(target[..]), start, HeaderBytes(stxo))
  {
    hide Encode, HeaderCode;
    ghost var was := target[..];
    size := PutVLQ(target, start, HeaderCode(stxo));
    if stxo.height > 0 {
      var reserved := PutVLQ(target, start + size, 0);
      OverwriteTwice(was, start, Encode(HeaderCode(stxo)), Encode(0));
      size := size + reserved;
    } else {
      assert HeaderBytes(stxo) == Encode(HeaderCode(stxo));
    }
  }

  method PutSpentTxOut(target: array<Byte>, start: nat, stxo: Spent, curve: Curve) returns (size: nat)
    requires start + |SpentBytes(stxo, curve)| <= target.Length
    modifies target
    ensures size == |SpentBytes(stxo, curve)|
    ensures target[..] == Overwrite(old(target[..]), start, SpentBytes(stxo, curve))
  {
    hide TxOutBytes, HeaderBytes, Overwrite;
    ghost var was := target[..];
    var offset := PutHeader(target, start, stxo);
    var txOut := PutCompressedTxOut(target, start + offset, stxo.amount % TWO_64, stxo.pkScript, curve);
    OverwriteTwice(was, start, HeaderBytes(stxo), TxOutBytes(stxo.amount % TWO_64, stxo.pkScript, curve));
    size := offset + txOut;
  }

  /** The low half of a word read as a signed number. */
  function AsInt32(x: Uint64): Int32 {
    var low := x % 0x1_0000_0000;
    if low < 0x8000_0000 then low else low - 0x1_0000_0000
  }

  /** The spent output at the front of a byte string, and how many bytes it takes. */
  function DecodeSpent(s: seq<Byte>, curve: Curve): (r: Option<(SpentTxOut, nat)>)
    ensures r.Some? ==> r.value.1 <= |s|
  {
    if s == [] then None
    else
      var (code, k) := Parse(s, 0);
      if k >= |s| then None
      else
        var height := AsInt32(code / 2);
        var at := if height > 0 then k + Parse(s[k..], 0).1 else k;
        if at >= |s| then None
        else
          match DecodeTxOut(s[at..], curve)
          case None => None
          case Some(out) => Some((SpentTxOut(AsInt(out.0), out.1, height, code % 2 == 1), at + out.2))
  }

  /** The spent outputs that come back: any height will do, and any amount whose code does
      not wrap around. */
  predicate Storable(stxo: Spent) {
    Fits(stxo.amount % TWO_64)
  }

  /** The spent output that comes back for a spent output. */
  function Recovered(stxo: Spent): Spent {
    stxo.(amount := AsInt(Restored(stxo.amount % TWO_64)))
  }

  lemma RestoredIs(amount: Uint64)
    ensures Restored(amount) == amount <==> Fits(amount)
  {
    AmountRoundTrip(amount);
  }

  /** A signed number is the only one with its low 64 bits. */
  lemma SignedAgain(x: Int64, y: Uint64)
    ensures AsInt(y) == x <==> y == x % TWO_64
  {
    assert x % TWO_64 == if x < 0 then x + TWO_64 else x;
  }

  lemma RecoveredIs(stxo: Spent)
    ensures Recovered(stxo) == stxo <==> Storable(stxo)
  {
    hide Fits, Restored, AsInt;
    RestoredIs(stxo.amount % TWO_64);
    SignedAgain(stxo.amount, Restored(stxo.amount % TWO_64));
  }

  lemma HeaderParts(stxo: SpentTxOut)
    ensures AsInt32(HeaderCode(stxo) / 2) == stxo.height && (HeaderCode(stxo) % 2 == 1 <==> stxo.isCoinBase)
  {
    var code := stxo.height * 2 + if stxo.isCoinBase then 1 else 0;
    assert HeaderCode(stxo) == if code < 0 then code + TWO_64 else code;
    assert HeaderCode(stxo) / 2 == if code < 0 then stxo.height + TWO_64 / 2 else stxo.height;
    assert TWO_64 / 2 == 0x8000_0000 * 0x1_0000_0000;
  }

  /** A spent output is read back whatever follows it, and exactly its bytes are taken. */
  lemma SpentRoundTrip(stxo: Spent, curve: Curve, t: seq<Byte>)
    requires Invertible(curve)
    ensures DecodeSpent(SpentBytes(stxo, curve) + t, curve) == Some((Recovered(stxo), |SpentBytes(stxo, curve)|))
    ensures Recovered(stxo) == stxo <==> Storable(stxo)
  {
    hide TxOutBytes, DecodeTxOut, Encode, Parse, Fits, Invertible, HeaderCode, AsInt32, Restored;
    RecoveredIs(stxo);
    var amount := stxo.amount % TWO_64;
    var head, out := Encode(HeaderCode(stxo)), TxOutBytes(amount, stxo.pkScript, curve);
    var reserved := if stxo.height > 0 then Encode(0) else [];
    var s := SpentBytes(stxo, curve) + t;
    HeaderParts(stxo);
    assert s == head + (reserved + (out + t));
    ParseEncode(HeaderCode(stxo), reserved + (out + t));
    assert s[|head|..] == reserved + (out + t);
    if stxo.height > 0 {
      ParseEncode(0, out + t);
    }
    assert s[|head| + |reserved|..] == out + t;
    TxOutRoundTrip(amount, stxo.pkScript, curve, t);
    assert out != [] by {
      TxOutNonempty(amount, stxo.pkScript, curve);
    }
  }

  lemma TxOutNonempty(amount: Uint64, pkScript: seq<Byte>, curve: Curve)
    ensures TxOutBytes(amount, pkScript, curve) != []
  {
  }

  // ----- The journal of a block -----

  /** The spent outputs of a block, last first. */
  function JournalBytes(stxos: seq<SpentTxOut>, curve: Curve): seq<Byte> {
    if stxos == [] then []
    else SpentBytes(stxos[|stxos| - 1], curve) + JournalBytes(stxos[..|stxos| - 1], curve)
  }

  method JournalSize(stxos: seq<Spent>, curve: Curve) returns (size: nat)
    ensures size == |JournalBytes(stxos, curve)|
  {
    size := 0;
    for i := 0 to |stxos|
      invariant size == |JournalBytes(stxos[..i], curve)|
    {
      var one := SpentTxOutSerializeSize(stxos[i], curve);
      assert stxos[..i + 1][..i] == stxos[..i];
      size := size + one;
    }
    assert stxos[..|stxos|] == stxos;
  }

  /** The buffer holds the journal but for the first `i` outputs, whose bytes come next. */
  ghost predicate Written(buffer: seq<Byte>, offset: nat, stxos: seq<Spent>, i: nat, curve: Curve) {
    && i <= |stxos| && offset <= |buffer| == |JournalBytes(stxos, curve)|
    && buffer[..offset] + JournalBytes(stxos[..i], curve) == JournalBytes(stxos, curve)
  }

  lemma StartWriting(buffer: seq<Byte>, stxos: seq<Spent>, curve: Curve)
    requires |buffer| == |JournalBytes(stxos, curve)|
    ensures Written(buffer, 0, stxos, |stxos|, curve)
  {
    assert stxos[..|stxos|] == stxos;
  }

  lemma AllWritten(buffer: seq<Byte>, offset: nat, stxos: seq<Spent>, curve: Curve)
    requires Written(buffer, offset, stxos, 0, curve)
    ensures buffer == JournalBytes(stxos, curve)
  {
    assert stxos[..0] == [];
    assert buffer[..offset] == JournalBytes(stxos, curve);
  }

  lemma WriteOne(buffer: seq<Byte>, offset: nat, stxos: seq<Spent>, i: nat, curve: Curve)
    requires Written(buffer, offset, stxos, i, curve) && i > 0
    ensures
      var one := SpentBytes(stxos[i - 1], curve);
      && offset + |one| <= |buffer|
      && Written(Overwrite(buffer, offset, one), offset + |one|, stxos, i - 1, curve)
  {
    hide SpentBytes;
    var one, rest := SpentBytes(stxos[i - 1], curve), JournalBytes(stxos[..i - 1], curve);
    assert stxos[..i][..i - 1] == stxos[..i - 1];
    assert JournalBytes(stxos[..i], curve) == one + rest;
    assert |buffer[..offset] + (one + rest)| == |buffer|;
    assert Overwrite(buffer, offset, one)[..offset + |one|] == buffer[..offset] + one;
  }

  method WriteNext(buffer: array<Byte>, offset: nat, stxos: seq<Spent>, i: nat, curve: Curve) returns (next: nat)
    requires i < |stxos| && Written(buffer[..], offset, stxos, i + 1, curve)
    modifies buffer
    ensures Written(buffer[..], next, stxos, i, curve)
  {
    hide Written, SpentBytes, Overwrite, JournalBytes;
    WriteOne(buffer[..], offset, stxos, i + 1, curve);
    var n := PutSpentTxOut(buffer, offset, stxos[i], curve);
    next := offset + n;
  }

  /** Writes the spent outputs one after the other, last first, into one buffer. */
  method SerializeSpendJournalEntry(stxos: seq<Spent>, curve: Curve) returns (serialized: seq<Byte>)
    ensures serialized == JournalBytes(stxos, curve)
  {
    if |stxos| == 0 {
      return [];
    }
    hide Written, SpentBytes, Overwrite, JournalBytes;
    var size := JournalSize(stxos, curve);
    var buffer := new Byte[size];
    var offset: nat, i: nat := 0, |stxos|;
    StartWriting(buffer[..], stxos, curve);
    while i > 0
      invariant fresh(buffer) && i <= |stxos| && Written(buffer[..], offset, stxos, i, curve)
    {
      i := i - 1;
      offset := WriteNext(buffer, offset, stxos, i, curve);
    }
    AllWritten(buffer[..], offset, stxos, curve);
    return buffer[..];
  }

  /** The next `n` spent outputs of a byte string, in the order of the block. */
  function ParseJournal(s: seq<Byte>, n: nat, curve: Curve): Option<seq<SpentTxOut>> {
    if n == 0 then Some([])
    else
      match DecodeSpent(s, curve)
      case None => None
      case Some(entry) =>
        match ParseJournal(s[entry.1..], n - 1, curve)
        case None => None
        case Some(rest) => Some(rest + [entry.0])
  }

  ghost predicate AllStorable(stxos: seq<Spent>) {
    forall i :: 0 <= i < |stxos| ==> Storable(stxos[i])
  }

  /** What comes back for the spent outputs of a block. */
  function AllRecovered(stxos: seq<Spent>): seq<Spent> {
    seq(|stxos|, i requires 0 <= i < |stxos| => Recovered(stxos[i]))
  }

  lemma AllRecoveredIs(stxos: seq<Spent>)
    ensures AllRecovered(stxos) == stxos <==> AllStorable(stxos)
  {
    hide Recovered, Storable;
    forall i | 0 <= i < |stxos|
      ensures AllRecovered(stxos)[i] == stxos[i] <==> Storable(stxos[i])
    {
      RecoveredIs(stxos[i]);
    }
  }

  lemma ParseOneMore(stxo: Spent, rest: seq<Byte>, n: nat, curve: Curve)
    requires Invertible(curve) && ParseJournal(rest, n, curve).Some?
    ensures
      var more := ParseJournal(rest, n, curve).value + [Recovered(stxo)];
      ParseJournal(SpentBytes(stxo, curve) + rest, n + 1, curve) == Some(more)
  {
    hide SpentBytes, DecodeSpent, Storable, Invertible, Recovered;
    SpentRoundTrip(stxo, curve, rest);
    assert (SpentBytes(stxo, curve) + rest)[|SpentBytes(stxo, curve)|..] == rest;
  }

  /** A journal is read back whatever follows it, if one knows how many outputs it holds. */
  lemma {:induction false} JournalRoundTrip(stxos: seq<Spent>, curve: Curve, t: seq<Byte>)
    requires Invertible(curve)
    ensures ParseJournal(JournalBytes(stxos, curve) + t, |stxos|, curve) == Some(AllRecovered(stxos))
  {
    hide SpentBytes, DecodeSpent, Invertible, Recovered, ParseJournal;
    if stxos == [] {
      NothingToParse(JournalBytes(stxos, curve) + t, curve);
    } else {
      var init, last := stxos[..|stxos| - 1], stxos[|stxos| - 1];
      var rest := JournalBytes(init, curve) + t;
      assert JournalBytes(stxos, curve) + t == SpentBytes(last, curve) + rest;
      JournalRoundTrip(init, curve, t);
      ParseOneMore(last, rest, |init|, curve);
      assert AllRecovered(stxos) == AllRecovered(init) + [Recovered(last)];
    }
  }

  lemma NothingToParse(s: seq<Byte>, curve: Curve)
    ensures ParseJournal(s, 0, curve) == Some([])
  {
  }

  // ----- Reading the journal of a block -----

  /** The total number of inputs of some transactions. */
  function TotalInputs(txns: seq<nat>): nat {
    if txns == [] then 0 else TotalInputs(txns[..|txns| - 1]) + txns[|txns| - 1]
  }

  datatype JournalResult = Entries(stxos: seq<SpentTxOut>) | Mismatched | Corrupt

  /** What reading a journal for transactions with so many inputs comes to. */
  function ReadJournal(s: seq<Byte>, n: nat, curve: Curve): JournalResult {
    if s == [] then if n == 0 then Entries([]) else Mismatched
    else
      match ParseJournal(s, n, curve)
      case None => Corrupt
      case Some(stxos) => Entries(stxos)
  }

  method CountInputs(txns: seq<nat>) returns (n: nat)
    ensures n == TotalInputs(txns)
  {
    n := 0;
    for i := 0 to |txns|
      invariant n == TotalInputs(txns[..i])
    {
      assert txns[..i + 1][..i] == txns[..i];
      n := n + txns[i];
    }
    assert txns[..|txns|] == txns;
  }

  /** Where reading stands: `left` outputs are still to be read, the others are filled in. */
  ghost predicate Reading(s: seq<Byte>, n: nat, curve: Curve, rest: seq<Byte>, left: nat, filled: seq<SpentTxOut>) {
    ParseJournal(s, n, curve) ==
      match ParseJournal(rest, left, curve)
      case None => None
      case Some(first) => Some(first + filled)
  }

  lemma ReadOne(s: seq<Byte>, n: nat, curve: Curve, rest: seq<Byte>, left: nat, filled: seq<SpentTxOut>)
    requires Reading(s, n, curve, rest, left, filled) && left > 0
    ensures DecodeSpent(rest, curve).None? ==> ParseJournal(s, n, curve) == None
    ensures DecodeSpent(rest, curve).Some? ==>
      var entry := DecodeSpent(rest, curve).value;
      Reading(s, n, curve, rest[entry.1..], left - 1, [entry.0] + filled)
  {
    hide DecodeSpent;
    if DecodeSpent(rest, curve).Some? {
      var entry := DecodeSpent(rest, curve).value;
      match ParseJournal(rest[entry.1..], left - 1, curve)
      case None =>
      case Some(first) =>
        assert first + [entry.0] + filled == first + ([entry.0] + filled);
    }
  }

  /** Reads one spent output into its place, counting down. */
  method ReadInto(serialized: seq<Byte>, offset: nat, stxos: array<SpentTxOut>, left: nat, curve: Curve, ghost n: nat)
    returns (ok: bool, next: nat)
    requires offset <= |serialized| && 0 < left <= stxos.Length
    requires Reading(serialized, n, curve, serialized[offset..], left, stxos[left..])
    modifies stxos
    ensures ok ==>
      next <= |serialized| && Reading(serialized, n, curve, serialized[next..], left - 1, stxos[left - 1..])
    ensures !ok ==> ParseJournal(serialized, n, curve) == None
  {
    hide Reading, DecodeSpent;
    ghost var filled := stxos[left..];
    ReadOne(serialized, n, curve, serialized[offset..], left, filled);
    match DecodeSpent(serialized[offset..], curve)
    case None =>
      return false, offset;
    case Some(entry) =>
      stxos[left - 1] := entry.0;
      ok, next := true, offset + entry.1;
      assert serialized[offset..][entry.1..] == serialized[next..];
      assert stxos[left - 1..] == [entry.0] + filled;
  }

  /** Reads the journal of a block, going backwards through its transactions and through
      the inputs of each. */
  method DeserializeSpendJournalEntry(serialized: seq<Byte>, txns: seq<nat>, curve: Curve) returns (r: JournalResult)
    ensures r == ReadJournal(serialized, TotalInputs(txns), curve)
  {
    hide Reading, ParseJournal;
    var n := CountInputs(txns);
    if |serialized| == 0 {
      return if n == 0 then Entries([]) else Mismatched;
    }
    var left, offset := n, 0;
    var stxos := new SpentTxOut[n](_ => SpentTxOut(0, [], 0, false));
    StartReading(serialized, n, curve, stxos[left..]);
    var txIdx := |txns|;
    assert txns[..txIdx] == txns;
    while txIdx > 0
      invariant 0 <= txIdx <= |txns| && 0 <= left == TotalInputs(txns[..txIdx]) <= n && 0 <= offset <= |serialized|
      invariant Reading(serialized, n, curve, serialized[offset..], left, stxos[left..])
    {
      txIdx := txIdx - 1;
      assert txns[..txIdx + 1][..txIdx] == txns[..txIdx];
      var txInIdx := txns[txIdx];
      while txInIdx > 0
        invariant 0 <= txInIdx && 0 <= left == TotalInputs(txns[..txIdx]) + txInIdx <= n && 0 <= offset <= |serialized|
        invariant Reading(serialized, n, curve, serialized[offset..], left, stxos[left..])
      {
        txInIdx := txInIdx - 1;
        var ok;
        ok, offset := ReadInto(serialized, offset, stxos, left, curve, n);
        if !ok {
          return Corrupt;
        }
        left := left - 1;
      }
    }
    DoneReading(serialized, n, curve, serialized[offset..], stxos[..]);
    return Entries(stxos[..]);
  }

  lemma StartReading(s: seq<Byte>, n: nat, curve: Curve, none: seq<SpentTxOut>)
    requires none == []
    ensures Reading(s, n, curve, s[0..], n, none)
  {
    assert s[0..] == s;
    match ParseJournal(s, n, curve)
    case None =>
    case Some(first) => assert first + none == first;
  }

  lemma DoneReading(s: seq<Byte>, n: nat, curve: Curve, rest: seq<Byte>, filled: seq<SpentTxOut>)
    requires Reading(s, n, curve, rest, 0, filled)
    ensures ParseJournal(s, n, curve) == Some(filled)
  {
    assert [] + filled == filled;
  }

  /** The journal of a block is read for every grouping of its inputs into transactions.  It
      gives back what was written if and only if every amount's code fits. */
  lemma BlockJournalRoundTrip(stxos: seq<Spent>, txns: seq<nat>, curve: Curve)
    requires Invertible(curve) && TotalInputs(txns) == |stxos|
    ensures ReadJournal(JournalBytes(stxos, curve), TotalInputs(txns), curve) == Entries(AllRecovered(stxos))
    ensures AllRecovered(stxos) == stxos <==> AllStorable(stxos)
  {
    hide SpentBytes, Invertible, ParseJournal, AllRecovered;
    AllRecoveredIs(stxos);
    var s := JournalBytes(stxos, curve);
    assert s + [] == s;
    JournalRoundTrip(stxos, curve, []);
    if stxos == [] {
      NothingToParse(s, curve);
    } else {
      assert s != [] by {
        SpentNonempty(stxos[|stxos| - 1], curve);
      }
    }
  }

  lemma SpentNonempty(stxo: SpentTxOut, curve: Curve)
    ensures SpentBytes(stxo, curve) != []
  {
    TxOutNonempty(stxo.amount % TWO_64, stxo.pkScript, curve);
  }

  // ----- The bytes of a record -----

  /** The header code is twice the height, and one more for a coinbase; a zero byte follows it
      when the height is positive; then come the amount's code and the compressed script. */
  lemma RecordBytes(stxo: SpentTxOut, curve: Curve)
    requires 0 <= stxo.height && 0 <= stxo.amount
    ensures SpentBytes(stxo, curve) ==
      Encode(2 * stxo.height + if stxo.isCoinBase then 1 else 0) + (if stxo.height > 0 then [0] else []) +
      Encode(Compress(stxo.amount) % TWO_64) + Compressed(stxo.pkScript, curve)
  {
    hide Compress, Compressed;
    SmallMod64(stxo.amount);
    SmallMod64(2 * stxo.height + if stxo.isCoinBase then 1 else 0);
    assert Encode(0) == [0];
  }

  lemma SmallMod64(x: nat)
    ensures x < TWO_64 ==> x % TWO_64 == x
  {
  }

  /** The first documented record: a coinbase of 50 coins paid to a key, at height 9. */
  lemma KeyExample(x: seq<Byte>, y: seq<Byte>, curve: Curve)
    requires |x| == 32 && |y| == 32 && y[31] % 2 == 1 && curve.valid([4] + x + y)
    ensures SpentBytes(SpentTxOut(5000000000, [0x41, 4] + x + y + [0xac], 9, true), curve) ==
      [0x13, 0x00, 0x32, 0x05] + x
  {
    hide Compress, Compressed, SpentBytes, Encode;
    var stxo := SpentTxOut(5000000000, [0x41, 4] + x + y + [0xac], 9, true);
    RecordBytes(stxo, curve);
    KeyKinds(x, y, 2, curve);
    ExampleCodes();
    assert Compressed(stxo.pkScript, curve) == [5] + x;
  }

  /** The second: 344.05 coins paid to a key hash, at height 100024. */
  lemma HashExample(hash: seq<Byte>, curve: Curve)
    requires |hash| == 20
    ensures SpentBytes(SpentTxOut(34405000000, [0x76, 0xa9, 0x14] + hash + [0x88, 0xac], 100024, false), curve) ==
      [0x8b, 0x99, 0x70, 0x00, 0x91, 0xf2, 0x0f, 0x00] + hash
  {
    hide Compress, Compressed, Decompressed, SpentBytes, Encode;
    var stxo := SpentTxOut(34405000000, [0x76, 0xa9, 0x14] + hash + [0x88, 0xac], 100024, false);
    RecordBytes(stxo, curve);
    HashKinds(hash, curve);
    ExampleCodes();
    assert Compressed(stxo.pkScript, curve) == [0] + hash;
  }

  lemma ExampleCodes()
    ensures Compress(5000000000) == 50 && Compress(34405000000) == 309647
    ensures Encode(50) == [0x32] && Encode(19) == [0x13] && Encode(200048) == [0x8b, 0x99, 0x70]
    ensures Encode(309647) == [0x91, 0xf2, 0x0f]
  {
    hide Compress;
    assert Pow10(6) == 1000000 && Pow10(9) == 1000000000;
    CompressMeans(5, 0, 9);
    CompressMeans(3440, 5, 6);
  }

  /** Later outputs come first in a journal entry. */
  lemma {:induction false} LaterFirst(first: seq<SpentTxOut>, later: seq<SpentTxOut>, curve: Curve)
    ensures JournalBytes(first + later, curve) == JournalBytes(later, curve) + JournalBytes(first, curve)
    ensures forall stxo :: JournalBytes([stxo], curve) == SpentBytes(stxo, curve)
    decreases |later|
  {
    hide SpentBytes;
    if later == [] {
      assert first + later == first;
    } else {
      var n := |later| - 1;
      LaterFirst(first, later[..n], curve);
      assert (first + later)[..|first| + n] == first + later[..n];
    }
    forall stxo
      ensures JournalBytes([stxo], curve) == SpentBytes(stxo, curve)
    {
      assert [stxo][..0] == [];
    }
  }
}
