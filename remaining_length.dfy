/**
 * The "Remaining Length" field of the fixed header (section 2.2.3 of MQTT
 * 3.1.1): an unsigned integer in groups of seven bits, least significant group
 * first, each byte's top bit (0x80) saying that another byte follows.
 *
 * `Decode` is the reader's loop in `receiveDataOnStream` as written: it gives
 * up on the fourth byte. `DecodeStd` stops only before a fifth byte, as the
 * standard and the code's own comment intend.
 */
module RemainingLength {
  import opened Bytes

  /** 128^k, the value of the `multiplier` after k length bytes. */
  function Pow128(k: nat): (p: nat)
    ensures p >= 1
  {
    if k == 0 then 1 else 128 * Pow128(k - 1)
  }

  /** The seven value bits of a length byte, as arithmetic. */
  function Low7(b: Byte): nat
  {
    b % 128
  }

  /** The continuation bit of a length byte, as arithmetic. */
  predicate Continues(b: Byte)
  {
    b >= 128
  }

  /** The value of the groups `ds`, least significant first: the sum of Low7(ds[i]) * 128^i. */
  function Value(ds: seq<Byte>): nat
  {
    if ds == [] then 0 else Low7(ds[0]) + 128 * Value(ds[1..])
  }

  /** One more group adds its seven bits at weight 128^|ds|: the reader's update of `value`. */
  lemma {:induction false} ValueSnoc(ds: seq<Byte>, b: Byte)
    ensures Value(ds + [b]) == Value(ds) + Low7(b) * Pow128(|ds|)
  {
    if ds == [] {
      assert ds + [b] == [b] && [b][1..] == [];
      assert Value([b]) == Low7(b);
    } else {
      assert (ds + [b])[1..] == ds[1..] + [b];
      ValueSnoc(ds[1..], b);
      var head, tail, low, weight := Low7(ds[0]), Value(ds[1..]), Low7(b), Pow128(|ds| - 1);
      assert Value(ds + [b]) == head + 128 * Value(ds[1..] + [b]);
      assert Value(ds[1..] + [b]) == tail + low * weight;
      assert Pow128(|ds|) == 128 * weight;
      assert Value(ds) == head + 128 * tail;
      ShiftGroup(Value(ds + [b]), Value(ds), head, tail, low, weight, Pow128(|ds|));
    }
  }

  lemma ShiftGroup(extended: int, v: int, head: int, tail: int, low: int, weight: int, p: int)
    requires extended == head + 128 * (tail + low * weight)
    requires v == head + 128 * tail && p == 128 * weight
    ensures extended == v + low * p
  {
  }

  /** k groups hold a value below 128^k. */
  lemma {:induction false} ValueBound(ds: seq<Byte>)
    ensures Value(ds) < Pow128(|ds|)
  {
    if ds != [] {
      ValueBound(ds[1..]);
      assert Value(ds[1..]) + 1 <= Pow128(|ds| - 1);
      assert 128 * Value(ds[1..]) + 128 <= 128 * Pow128(|ds| - 1);
    }
  }

  /** The reader's guard `multiplier > 128*128*128`, after the (k+1)-th length byte, fires only for the fourth. */
  lemma GuardFiresOnFourthByte(k: nat)
    requires k <= 3
    ensures (Pow128(k + 1) > 128 * 128 * 128) <==> k == 3
  {
    assert Pow128(1) == 128;
    assert Pow128(2) == 128 * 128;
    assert Pow128(3) == 128 * 128 * 128;
    assert Pow128(4) == 128 * 128 * 128 * 128;
  }

  lemma {:induction false} Pow128Monotone(i: nat, j: nat)
    requires i <= j
    ensures Pow128(i) <= Pow128(j)
  {
    if i < j {
      Pow128Monotone(i, j - 1);
    }
  }

  /**
   * The encoding `finalPacket` writes for a remaining length `n`: the shortest
   * sequence of groups whose value is `n`, every byte but the last carrying the
   * continuation bit.
   */
  function Encode(n: nat): (r: seq<Byte>)
    ensures |r| >= 1 && Value(r) == n
    ensures forall i :: 0 <= i < |r| - 1 ==> Continues(r[i])
    ensures !Continues(r[|r| - 1])
    ensures n < Pow128(|r|) && (|r| > 1 ==> Pow128(|r| - 1) <= n)
  {
    if n < 128 then [n]
    else
      var rest := Encode(n / 128);
      assert ([n % 128 + 128] + rest)[1..] == rest;
      [n % 128 + 128] + rest
  }

  /** The byte a read at position i leaves in the one-byte buffer: the data, or the initial 0 past the end. */
  function At(s: seq<Byte>, i: nat): Byte
  {
    if i < |s| then s[i] else 0
  }

  /** The first k bytes the reader's loop sees, zeros standing for reads past the end. */
  function Padded(s: seq<Byte>, k: nat): (r: seq<Byte>)
    ensures |r| == k && forall i :: 0 <= i < k ==> r[i] == At(s, i)
  {
    seq(k, i requires 0 <= i => At(s, i))
  }

  /**
   * Index of the first byte the loop sees without the continuation bit,
   * looking at no more than `limit` bytes; `limit` when all of those continue.
   */
  function StopIndex(s: seq<Byte>, limit: nat): (j: nat)
    ensures j <= limit
    ensures forall i :: 0 <= i < j ==> Continues(At(s, i))
    ensures j < limit ==> !Continues(At(s, j))
    decreases limit
  {
    if limit == 0 || !Continues(At(s, 0)) then 0
    else
      var j := StopIndex(s[1..], limit - 1);
      assert forall i :: 1 <= i < 1 + j ==> At(s, i) == At(s[1..], i - 1);
      1 + j
  }

  /** Length bytes the reader decodes as written: the guard fires on the fourth. */
  const ACCEPTED_LENGTH_BYTES: nat := 3

  /** Length bytes section 2.2.3 of MQTT 3.1.1 allows. */
  const MAX_LENGTH_BYTES: nat := 4

  datatype Decoded =
    | Length(value: nat, consumed: nat)   // the decoded length and the number of bytes read
    | Overflow(consumed: nat)             // the reader gave up on this frame after that many reads

  /**
   * The reader's length loop as written (MQTTSessionStreamDelegate.swift:89-101):
   * `multiplier` exceeds 128^3 right after the fourth byte is read, so a
   * length needing four bytes is refused together with every longer one.
   * `s` is what follows the fixed-header byte; reads past its end yield 0.
   */
  function Decode(s: seq<Byte>): (r: Decoded)
    ensures r.consumed <= |s|
    ensures r.Length? ==> r.value < Pow128(ACCEPTED_LENGTH_BYTES) == 2097152
  {
    var j := StopIndex(s, ACCEPTED_LENGTH_BYTES);
    if j == ACCEPTED_LENGTH_BYTES then Overflow(Min(ACCEPTED_LENGTH_BYTES + 1, |s|))
    else
      ValueBound(Padded(s, j + 1));
      Pow128Monotone(j + 1, ACCEPTED_LENGTH_BYTES);
      Length(Value(Padded(s, j + 1)), Min(j + 1, |s|))
  }

  /**
   * The corrected loop: up to four length bytes are accepted, and a frame is
   * refused only when the fourth byte still carries the continuation bit,
   * before any fifth byte is read.
   */
  function DecodeStd(s: seq<Byte>): (r: Decoded)
    ensures r.Length? ==> r.consumed <= |s| && r.value < Pow128(MAX_LENGTH_BYTES) == 268435456
  {
    var j := StopIndex(s, MAX_LENGTH_BYTES);
    if j == MAX_LENGTH_BYTES then Overflow(MAX_LENGTH_BYTES)
    else
      ValueBound(Padded(s, j + 1));
      Pow128Monotone(j + 1, MAX_LENGTH_BYTES);
      Length(Value(Padded(s, j + 1)), Min(j + 1, |s|))
  }

  /** The reader reads at most four length bytes, and refuses exactly when the first three all continue. */
  lemma DecodeReadsAtMostFour(s: seq<Byte>)
    ensures Decode(s).consumed <= 4 && Decode(s).consumed <= |s|
    ensures Decode(s).Overflow? <==> Continues(At(s, 0)) && Continues(At(s, 1)) && Continues(At(s, 2))
    ensures Decode(s).Overflow? ==> Decode(s).consumed == Min(4, |s|) >= 3
  {
    var j := StopIndex(s, 3);
    if j == 3 {
      assert Continues(At(s, 2));
    }
  }

  /** The characterisation of `StopIndex`: it is the only index with its three properties. */
  lemma StopIndexIs(s: seq<Byte>, limit: nat, k: nat)
    requires k <= limit
    requires forall i :: 0 <= i < k ==> Continues(At(s, i))
    requires k < limit ==> !Continues(At(s, k))
    ensures StopIndex(s, limit) == k
  {
  }

  /**
   * One turn of the reader's loop, after `digits` (the length bytes so far, all
   * continuing) and the byte `b` it reads next: what it adds to the value, when
   * the guard fires, and what the loop has decoded when it stops.
   */
  lemma LengthByte(s: seq<Byte>, digits: seq<Byte>, b: Byte)
    requires |digits| <= ACCEPTED_LENGTH_BYTES && |digits| <= |s| && digits == s[..|digits|]
    requires forall i :: 0 <= i < |digits| ==> Continues(digits[i])
    requires b == At(s, |digits|)
    ensures And(b, 127) == Low7(b) && (And(b, 128) == 0) == !Continues(b)
    ensures Value(digits + [b]) == Value(digits) + And(b, 127) * Pow128(|digits|)
    ensures Pow128(|digits|) * 128 == Pow128(|digits| + 1)
    ensures (Pow128(|digits|) * 128 > 128 * 128 * 128) == (|digits| == ACCEPTED_LENGTH_BYTES)
    ensures |digits| == ACCEPTED_LENGTH_BYTES ==> Decode(s) == Overflow(Min(4, |s|))
    ensures |digits| < ACCEPTED_LENGTH_BYTES && Continues(b) ==>
      |digits| + 1 <= |s| && digits + [b] == s[..|digits| + 1]
    ensures |digits| < ACCEPTED_LENGTH_BYTES && !Continues(b) ==>
      Decode(s) == Length(Value(digits + [b]), Min(|digits| + 1, |s|))
  {
    var k := |digits|;
    MaskLow7High1(b);
    ValueSnoc(digits, b);
    GuardFiresOnFourthByte(k);
    LengthByteDecodes(s, digits, b);
  }

  /** Where the turn of `LengthByte` leaves the loop, as `Decode` has it. */
  lemma LengthByteDecodes(s: seq<Byte>, digits: seq<Byte>, b: Byte)
    requires |digits| <= ACCEPTED_LENGTH_BYTES && |digits| <= |s| && digits == s[..|digits|]
    requires forall i :: 0 <= i < |digits| ==> Continues(digits[i])
    requires b == At(s, |digits|)
    ensures |digits| == ACCEPTED_LENGTH_BYTES ==> Decode(s) == Overflow(Min(4, |s|))
    ensures |digits| < ACCEPTED_LENGTH_BYTES && Continues(b) ==>
      |digits| + 1 <= |s| && digits + [b] == s[..|digits| + 1]
    ensures |digits| < ACCEPTED_LENGTH_BYTES && !Continues(b) ==>
      Decode(s) == Length(Value(digits + [b]), Min(|digits| + 1, |s|))
  {
    var k := |digits|;
    assert forall i :: 0 <= i < k ==> At(s, i) == digits[i];
    if k == ACCEPTED_LENGTH_BYTES {
      StopIndexIs(s, ACCEPTED_LENGTH_BYTES, k);
    } else if Continues(b) {
      assert digits + [b] == s[..k + 1];
    } else {
      StopIndexIs(s, ACCEPTED_LENGTH_BYTES, k);
      assert Padded(s, k + 1) == digits + [b];
    }
  }

  /**
   * A missing length byte reads as 0x00 and ends the loop: when the data runs
   * out while every byte so far continued, the length is the value of the bytes
   * that were there, and nothing past the end is consumed.
   */
  lemma MissingByteEndsLength(s: seq<Byte>)
    requires |s| < 3
    requires forall i :: 0 <= i < |s| ==> Continues(s[i])
    ensures Decode(s) == Length(Value(s), |s|)
  {
    assert s[..|s|] == s && At(s, |s|) == 0;
    LengthByteDecodes(s, s, 0);
    assert Decode(s) == Length(Value(s + [0]), |s|);
    ValueSnoc(s, 0);
    assert Low7(0) == 0;
  }

  lemma {:induction false} StopIndexEncode(n: nat, rest: seq<Byte>, limit: nat)
    ensures StopIndex(Encode(n) + rest, limit) == Min(|Encode(n)| - 1, limit)
  {
    var s := Encode(n) + rest;
    var k := |Encode(n)| - 1;
    assert forall i :: 0 <= i < k ==> At(s, i) == Encode(n)[i];
    assert At(s, k) == Encode(n)[k];
  }

  lemma PaddedPrefix(e: seq<Byte>, rest: seq<Byte>)
    ensures Padded(e + rest, |e|) == e
  {
  }

  /** Lengths below 128^3 survive the reader: it reads back exactly the bytes `finalPacket` wrote. */
  lemma DecodeEncode(n: nat, rest: seq<Byte>)
    requires n < Pow128(3)
    ensures Decode(Encode(n) + rest) == Length(n, |Encode(n)|)
  {
    var e := Encode(n);
    var s := e + rest;
    if |e| > 3 {
      Pow128Monotone(3, |e| - 1);
    }
    assert |e| <= 3;
    StopIndexEncode(n, rest, ACCEPTED_LENGTH_BYTES);
    assert StopIndex(s, ACCEPTED_LENGTH_BYTES) == |e| - 1;
    PaddedPrefix(e, rest);
    assert Decode(s) == Length(Value(Padded(s, |e|)), Min(|e|, |s|));
  }

  /** Lengths of 2,097,152 and more, encoded in four bytes, make the reader give up after those four bytes. */
  lemma DecodeRefusesFourByteLengths(n: nat, rest: seq<Byte>)
    requires Pow128(3) <= n < Pow128(4)
    ensures |Encode(n)| == 4
    ensures Decode(Encode(n) + rest) == Overflow(4)
  {
    var e := Encode(n);
    if |e| <= 3 {
      Pow128Monotone(|e|, 3);
    }
    if |e| > 4 {
      Pow128Monotone(4, |e| - 1);
    }
    StopIndexEncode(n, rest, 3);
  }

  /** The corrected loop reads back every length of the standard's range [0, 268,435,455]. */
  lemma DecodeStdEncode(n: nat, rest: seq<Byte>)
    requires n < Pow128(4)
    ensures DecodeStd(Encode(n) + rest) == Length(n, |Encode(n)|)
  {
    var e := Encode(n);
    var s := e + rest;
    if |e| > 4 {
      Pow128Monotone(4, |e| - 1);
    }
    assert |e| <= 4;
    StopIndexEncode(n, rest, MAX_LENGTH_BYTES);
    assert StopIndex(s, MAX_LENGTH_BYTES) == |e| - 1;
    PaddedPrefix(e, rest);
    assert DecodeStd(s) == Length(Value(Padded(s, |e|)), Min(|e|, |s|));
  }

  /** The corrected loop never reads a fifth length byte, and refuses exactly when four bytes all continue. */
  lemma DecodeStdReadsAtMostFour(s: seq<Byte>)
    ensures DecodeStd(s).consumed <= 4 && DecodeStd(s).consumed <= |s|
    ensures DecodeStd(s).Overflow? <==> forall i :: 0 <= i < 4 ==> Continues(At(s, i))
  {
  }
}
