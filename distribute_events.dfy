/**
 * `DistributeEvents.GarbledRepai(InputStream, byte[])`: fills a byte buffer
 * from a stream one UTF-8 character at a time, so that a multi-byte
 * character is never split across two fills; and `NDKEenhancement`, which
 * extends an ndk-build command line for Gradle-layout projects.
 */
module DistributeEvents {

  /** A Java `byte`. */
  newtype int8 = x: int | -128 <= x < 128

  /**
   * `(byte) v` for a value `read()` returns: the low eight bits of `v`, read
   * as a two's-complement byte (so -1 stays -1).
   */
  function ToByte(v: int): (b: int8)
    requires -1 <= v < 256
  {
    if v < 128 then v as int8 else (v - 256) as int8
  }

  /** Every element is a value `InputStream.read()` returns for a byte of data. */
  predicate Bytes(s: seq<int>) {
    forall i :: 0 <= i < |s| ==> 0 <= s[i] < 256
  }

  /** The `i`-th call of `read()` on a stream holding `input`: a byte, or -1 past the end. */
  function Padded(input: seq<int>, i: nat): int {
    if i < |input| then input[i] else -1
  }

  /** The `i`-th byte stored is the `i`-th byte read, cast to `byte`. */
  predicate ReadOrder(input: seq<int>, written: seq<int8>)
    requires Bytes(input)
  {
    forall i :: 0 <= i < |written| ==> written[i] == ToByte(Padded(input, i))
  }

  function Min(a: int, b: int): int { if a <= b then a else b }

  /** `lead << k`. */
  function Shifted(lead: nat, k: nat): nat {
    if k == 0 then lead else 2 * Shifted(lead, k - 1)
  }

  /**
   * Bit `0x40` of `lead << k` for a byte `lead`: bit `6 - k` of `lead`, and
   * none once seven shifts have moved every bit past it.
   */
  predicate Bit6(lead: nat, k: nat) {
    if k == 0 then lead % 128 >= 64
    else if k == 1 then lead % 64 >= 32
    else if k == 2 then lead % 32 >= 16
    else if k == 3 then lead % 16 >= 8
    else if k == 4 then lead % 8 >= 4
    else if k == 5 then lead % 4 >= 2
    else if k == 6 then lead % 2 == 1
    else false
  }
  /** `x & 0x40` for `x` written as `128 * a + 64 * b + c`. */
  lemma BitOfSplit(x: nat, a: nat, b: nat, c: nat)
    requires x == 128 * a + 64 * b + c && b <= 1 && c < 64
    ensures ((x / 64) % 2 != 0) <==> b == 1
  {
    assert 64 * (2 * a + b) <= x < 64 * (2 * a + b) + 64;
    assert x / 64 == 2 * a + b;
  }
  /** `(lead << k) & 0x40` tests exactly `Bit6(lead, k)`. */
  lemma ShiftedBit6(lead: nat, k: nat)
    requires k <= 7
    ensures ((Shifted(lead, k) / 64) % 2 != 0) <==> Bit6(lead, k)
  {
    var x := Shifted(lead, k);
    assert Shifted(lead, 1) == 2 * lead;
    assert Shifted(lead, 2) == 4 * lead;
    assert Shifted(lead, 3) == 8 * lead;
    assert Shifted(lead, 4) == 16 * lead;
    assert Shifted(lead, 5) == 32 * lead;
    assert Shifted(lead, 6) == 64 * lead;
    assert Shifted(lead, 7) == 128 * lead;
    if k == 0 {
      var r := lead % 128;
      var b := if r >= 64 then 1 else 0;
      BitOfSplit(x, lead / 128, b, r - 64 * b);
    } else if k == 1 {
      var r := lead % 64;
      var b := if r >= 32 then 1 else 0;
      BitOfSplit(x, lead / 64, b, 2 * (r - 32 * b));
    } else if k == 2 {
      var r := lead % 32;
      var b := if r >= 16 then 1 else 0;
      BitOfSplit(x, lead / 32, b, 4 * (r - 16 * b));
    } else if k == 3 {
      var r := lead % 16;
      var b := if r >= 8 then 1 else 0;
      BitOfSplit(x, lead / 16, b, 8 * (r - 8 * b));
    } else if k == 4 {
      var r := lead % 8;
      var b := if r >= 4 then 1 else 0;
      BitOfSplit(x, lead / 8, b, 16 * (r - 4 * b));
    } else if k == 5 {
      var r := lead % 4;
      var b := if r >= 2 then 1 else 0;
      BitOfSplit(x, lead / 4, b, 32 * (r - 2 * b));
    } else if k == 6 {
      var r := lead % 2;
      BitOfSplit(x, lead / 2, r, 0);
    } else {
      BitOfSplit(x, lead, 0, 0);
    }
  }

  /** The number of continuation bytes a lead byte announces: the run of one bits below its top bit, from bit `6 - k` down. */
  function Continuations(lead: nat, k: nat): (n: nat)
    ensures n <= 7 - k || k > 7
    decreases 7 - k
  {
    if k < 7 && Bit6(lead, k) then 1 + Continuations(lead, k + 1) else 0
  }

  /** The UTF-8 reading of a lead byte: `10xxxxxx` announces no more bytes, `110xxxxx` one, `1110xxxx` two, `11110xxx` three. */
  lemma ContinuationsOfLead(b: nat)
    requires 128 <= b < 248
    ensures 128 <= b < 192 ==> Continuations(b, 0) == 0
    ensures 192 <= b < 224 ==> Continuations(b, 0) == 1
    ensures 224 <= b < 240 ==> Continuations(b, 0) == 2
    ensures 240 <= b < 248 ==> Continuations(b, 0) == 3
  {
  }

  /** The bytes stored so far, and whether a store fell outside the buffer. */
  datatype Step = Step(written: seq<int8>, overflow: bool)

  /**
   * How many bytes a step has taken from a stream holding `input`: one per
   * byte stored, and one more for the read of an overflowing store; reads
   * past the end take nothing.
   */
  function Taken(input: seq<int>, s: Step): nat {
    Min(|s.written| + (if s.overflow then 1 else 0), |input|)
  }

  /**
   * The inner loop: while bit 6 of the shifted lead byte is set, store the
   * next byte read (the `|written|`-th). The index is checked only after the
   * read, so an overflowing store has consumed its byte.
   */
  function ContinuationBytes(input: seq<int>, size: nat, lead: nat, k: nat, written: seq<int8>): (s: Step)
    requires Bytes(input) && |written| <= size
    ensures |written| <= |s.written| <= size
    decreases 7 - k
  {
    if !Bit6(lead, k) then Step(written, false)
    else if |written| >= size then Step(written, true)
    else ContinuationBytes(input, size, lead, k + 1, written + [ToByte(Padded(input, |written|))])
  }

  /** The inner loop stops when bit 6 is clear, and overflows when it is set with no room left. */
  lemma ContinuationEnd(input: seq<int>, size: nat, lead: nat, k: nat, written: seq<int8>)
    requires Bytes(input) && |written| <= size
    requires !Bit6(lead, k) || |written| >= size
    ensures ContinuationBytes(input, size, lead, k, written) == Step(written, Bit6(lead, k))
  {
  }

  /** With bit 6 set and room left, the inner loop stores the next byte read and goes on. */
  lemma ContinuationMore(input: seq<int>, size: nat, lead: nat, k: nat, written: seq<int8>)
    requires Bytes(input) && |written| < size && Bit6(lead, k)
    ensures ContinuationBytes(input, size, lead, k, written)
            == ContinuationBytes(input, size, lead, k + 1, written + [ToByte(Padded(input, |written|))])
  {
  }

  /**
   * The inner loop stores exactly the continuation bytes the lead byte
   * announces, and overflows exactly when they do not fit; each byte it
   * stores is the next byte read (-1 once the stream is exhausted).
   */
  lemma {:induction false} ContinuationBytesCount(input: seq<int>, size: nat, lead: nat, k: nat, written: seq<int8>)
    requires Bytes(input) && |written| <= size
    ensures var s := ContinuationBytes(input, size, lead, k, written);
            && (s.overflow <==> |written| + Continuations(lead, k) > size)
            && (!s.overflow ==> |s.written| == |written| + Continuations(lead, k))
            && (ReadOrder(input, written) ==> ReadOrder(input, s.written))
    decreases 7 - k
  {
    if Bit6(lead, k) && |written| < size {
      var w := written + [ToByte(Padded(input, |written|))];
      assert ReadOrder(input, written) ==> ReadOrder(input, w);
      ContinuationBytesCount(input, size, lead, k + 1, w);
    }
  }

  /** What `GarbledRepai` returns: -1 at the end of the stream, the count of bytes stored, or an `ArrayIndexOutOfBoundsException`. */
  datatype Outcome = EndOfStream | Count(n: nat) | IndexOutOfBounds

  /** The bytes stored, how many bytes were taken from the stream, and the outcome. */
  datatype Fill = Fill(written: seq<int8>, pos: nat, outcome: Outcome)

  /** One character: the lead byte `read` (the `|written|`-th byte of the stream) is stored, then its continuation bytes. */
  function CharacterStep(input: seq<int>, size: nat, read: int, written: seq<int8>): (s: Step)
    requires Bytes(input) && |written| < |input| && read == input[|written|]
    requires |written| < size
    ensures |written| < |s.written| <= size
  {
    var w := written + [ToByte(read)];
    if read < 128 then Step(w, false) else ContinuationBytes(input, size, read, 0, w)
  }

  /**
   * A character stores its lead byte and the continuation bytes the lead
   * byte announces (none for ASCII), all of them bytes read in order.
   */
  lemma CharacterStepCount(input: seq<int>, size: nat, read: int, written: seq<int8>)
    requires Bytes(input) && |written| < |input| && read == input[|written|]
    requires |written| < size
    ensures var s := CharacterStep(input, size, read, written);
            && var n := if read < 128 then 0 else Continuations(read, 0);
            && (s.overflow <==> |written| + 1 + n > size)
            && (!s.overflow ==> |s.written| == |written| + 1 + n)
            && (ReadOrder(input, written) ==> ReadOrder(input, s.written))
  {
    var w := written + [ToByte(read)];
    assert ReadOrder(input, written) ==> ReadOrder(input, w);
    if read >= 128 {
      ContinuationBytesCount(input, size, read, 0, w);
    }
  }

  /**
   * The outer loop, entered with the lead byte `read` just taken from the
   * stream: store its character, then read the next byte only while four
   * bytes of room remain.
   */
  function Characters(input: seq<int>, size: nat, read: int, written: seq<int8>): (f: Fill)
    requires Bytes(input) && |written| < |input| && read == input[|written|]
    requires |written| <= size
    ensures |f.written| <= size && f.pos <= |input|
    ensures f.outcome != EndOfStream
    decreases |input| - |written|
  {
    if |written| >= size then Fill(written, |written| + 1, Count(|written|))
    else
      var s := CharacterStep(input, size, read, written);
      if s.overflow then Fill(s.written, Taken(input, s), IndexOutOfBounds)
      else if size - 4 >= |s.written| && |s.written| < |input| then Characters(input, size, input[|s.written|], s.written)
      else Fill(s.written, Taken(input, s), Count(|s.written|))
  }

  /** A turn of the outer loop that ends it: an overflowing store, no room for four more bytes, or no byte left. */
  lemma CharactersStop(input: seq<int>, size: nat, read: int, written: seq<int8>, outcome: Outcome)
    requires Bytes(input) && |written| < |input| && read == input[|written|]
    requires |written| < size
    requires var s := CharacterStep(input, size, read, written);
             if s.overflow then outcome == IndexOutOfBounds
             else (size - 4 < |s.written| || |s.written| >= |input|) && outcome == Count(|s.written|)
    ensures var s := CharacterStep(input, size, read, written);
            Characters(input, size, read, written) == Fill(s.written, Taken(input, s), outcome)
  {
  }

  /** A turn of the outer loop that goes on with the next byte as lead byte. */
  lemma CharactersContinue(input: seq<int>, size: nat, read: int, written: seq<int8>)
    requires Bytes(input) && |written| < |input| && read == input[|written|]
    requires |written| < size
    requires var s := CharacterStep(input, size, read, written);
             !s.overflow && size - 4 >= |s.written| && |s.written| < |input|
    ensures var s := CharacterStep(input, size, read, written);
            Characters(input, size, read, written) == Characters(input, size, input[|s.written|], s.written)
  {
  }

  /**
   * The outer loop returns the number of bytes it stored, stores only bytes
   * read in order, and (when it got to run) stops with the stream read up to
   * what it stored.
   */
  lemma {:induction false} CharactersShape(input: seq<int>, size: nat, read: int, written: seq<int8>)
    requires Bytes(input) && |written| < |input| && read == input[|written|]
    requires |written| <= size
    ensures var f := Characters(input, size, read, written);
            && (f.outcome.Count? ==> f.outcome.n == |f.written|)
            && (f.outcome.Count? && |written| < size ==> f.pos == Min(|f.written|, |input|))
            && (ReadOrder(input, written) ==> ReadOrder(input, f.written))
    decreases |input| - |written|
  {
    if |written| < size {
      CharacterStepCount(input, size, read, written);
      var s := CharacterStep(input, size, read, written);
      if s.overflow {
        CharactersStop(input, size, read, written, IndexOutOfBounds);
      } else if size - 4 >= |s.written| && |s.written| < |input| {
        CharactersContinue(input, size, read, written);
        CharactersShape(input, size, input[|s.written|], s.written);
      } else {
        CharactersStop(input, size, read, written, Count(|s.written|));
      }
    }
  }

  /**
   * `GarbledRepai` on a stream holding `input` and a buffer of `size` bytes:
   * the bytes stored, how many bytes were read, and the outcome.
   */
  function GarbledRepair(input: seq<int>, size: nat): (f: Fill)
    requires Bytes(input)
    ensures f.outcome == EndOfStream <==> |input| == 0
    ensures |f.written| <= size && f.pos <= |input|
  {
    if |input| == 0 then Fill([], 0, EndOfStream)
    else Characters(input, size, input[0], [])
  }

  /**
   * -1 with nothing stored when the stream is empty; otherwise the bytes
   * stored are the bytes read, in order, and the count returned is their
   * number.
   */
  lemma GarbledRepairShape(input: seq<int>, size: nat)
    requires Bytes(input)
    ensures var f := GarbledRepair(input, size);
            && (f.outcome == EndOfStream ==> f.written == [] && f.pos == 0)
            && ReadOrder(input, f.written)
            && (f.outcome.Count? ==> f.outcome.n == |f.written|)
            && (f.outcome.Count? && size > 0 ==> f.pos == Min(|f.written|, |input|))
  {
    if |input| > 0 {
      CharactersShape(input, size, input[0], []);
    }
  }

  lemma {:induction false} AsciiCharacters(input: seq<int>, size: nat, written: seq<int8>)
    requires Bytes(input) && forall i :: 0 <= i < |input| ==> input[i] < 128
    requires |written| < |input| && |input| + 3 <= size
    ensures var f := Characters(input, size, input[|written|], written);
            f.outcome == Count(|input|) && f.pos == |input|
    decreases |input| - |written|
  {
    var w := written + [ToByte(input[|written|])];
    if |w| < |input| {
      AsciiCharacters(input, size, w);
    }
  }

  /** With room for the whole text plus a character, ASCII text is copied whole and its length returned. */
  lemma AsciiFill(input: seq<int>, size: nat)
    requires Bytes(input) && forall i :: 0 <= i < |input| ==> input[i] < 128
    requires 0 < |input| && |input| + 3 <= size
    ensures var f := GarbledRepair(input, size);
            && f.outcome == Count(|input|) && f.pos == |input| && |f.written| == |input|
            && forall i :: 0 <= i < |input| ==> f.written[i] == input[i] as int8
  {
    AsciiCharacters(input, size, []);
    GarbledRepairShape(input, size);
  }

  /**
   * The bytes the outer loop takes as lead bytes, parsing from index `pos`,
   * each start a sequence of at most four bytes (none is `11111xxx`); the
   * continuation bytes between them may be anything.
   */
  predicate ShortLeads(input: seq<int>, pos: nat)
    requires Bytes(input)
    decreases |input| - pos
  {
    pos < |input| ==>
      && input[pos] < 248
      && ShortLeads(input, pos + 1 + (if input[pos] < 128 then 0 else Continuations(input[pos], 0)))
  }

  lemma {:induction false} NoOverflowCharacters(input: seq<int>, size: nat, read: int, written: seq<int8>)
    requires Bytes(input) && ShortLeads(input, |written|)
    requires |written| < |input| && read == input[|written|]
    requires |written| + 4 <= size
    ensures Characters(input, size, read, written).outcome.Count?
    decreases |input| - |written|
  {
    if read >= 128 {
      ContinuationsOfLead(read);
    }
    CharacterStepCount(input, size, read, written);
    var s := CharacterStep(input, size, read, written);
    if size - 4 >= |s.written| && |s.written| < |input| {
      NoOverflowCharacters(input, size, input[|s.written|], s.written);
    }
  }

  /**
   * With a buffer of at least four bytes and no lead byte of a sequence longer
   * than four bytes (`11111xxx`), no store falls outside the buffer, whatever
   * the bytes in continuation position are.
   */
  lemma NoOverflow(input: seq<int>, size: nat)
    requires Bytes(input) && ShortLeads(input, 0)
    requires size >= 4
    ensures GarbledRepair(input, size).outcome != IndexOutOfBounds
  {
    if |input| > 0 {
      NoOverflowCharacters(input, size, input[0], []);
    }
  }

  /** A continuation byte `11111xxx` does no harm: `C3 FF` fills a four-byte buffer without overflow. */
  lemma GarbledContinuationFits()
    ensures ShortLeads([0xC3, 0xFF], 0)
    ensures GarbledRepair([0xC3, 0xFF], 4).outcome == Count(2)
  {
    ContinuationsOfLead(0xC3);
    NoOverflow([0xC3, 0xFF], 4);
    CharactersShape([0xC3, 0xFF], 4, 0xC3, []);
  }

  /** The stream `GarbledRepai` reads from. */
  class ByteInput {
    var remaining: seq<int>

    ghost predicate Valid()
      reads this
    {
      Bytes(remaining)
    }

    constructor (bytes: seq<int>)
      requires Bytes(bytes)
      ensures Valid() && remaining == bytes
    {
      remaining := bytes;
    }

    /** `InputStream.read()`: the next byte, or -1 at the end of the stream. */
    method Read() returns (b: int)
      requires Valid()
      modifies this
      ensures Valid()
      ensures old(remaining) == [] ==> b == -1 && remaining == []
      ensures old(remaining) != [] ==> b == old(remaining)[0] && remaining == old(remaining)[1..]
    {
      if remaining == [] {
        b := -1;
      } else {
        b := remaining[0];
        remaining := remaining[1..];
      }
    }
  }

  /**
   * `data[count] = (byte) mInput.read()`: the byte is read before the index
   * is checked, so an index past the buffer still consumes it.
   */
  method StoreRead(input: ByteInput, data: array<int8>, count: nat, ghost orig: seq<int>) returns (overflow: bool)
    requires input.Valid() && Bytes(orig) && input.remaining == orig[Min(count, |orig|)..]
    modifies input, data
    ensures input.Valid() && input.remaining == orig[Min(count + 1, |orig|)..]
    ensures overflow <==> data.Length <= count
    ensures overflow ==> unchanged(data)
    ensures !overflow ==> data[..count + 1] == old(data[..count]) + [ToByte(Padded(orig, count))]
    ensures forall j :: count < j < data.Length ==> data[j] == old(data[j])
  {
    var b := input.Read();
    if count >= data.Length {
      return true;
    }
    data[count] := ToByte(b);
    overflow := false;
  }

  /** One turn of `GarbledRepai`'s inner loop, taken while bit 6 of the shifted lead byte is set. */
  method StoreContinuation(input: ByteInput, data: array<int8>, count: nat, ghost lead: nat, ghost k: nat, ghost orig: seq<int>, ghost written: seq<int8>)
    returns (overflow: bool)
    requires input.Valid() && Bytes(orig) && Bit6(lead, k)
    requires count == |written| <= data.Length && data[..count] == written
    requires input.remaining == orig[Min(count, |orig|)..]
    modifies input, data
    ensures input.Valid() && input.remaining == orig[Min(count + 1, |orig|)..]
    ensures forall j :: count < j < data.Length ==> data[j] == old(data[j])
    ensures overflow ==> data[..count] == written && ContinuationBytes(orig, data.Length, lead, k, written) == Step(written, true)
    ensures !overflow ==> && count < data.Length
                          && data[..count + 1] == written + [ToByte(Padded(orig, count))]
                          && ContinuationBytes(orig, data.Length, lead, k, written)
                             == ContinuationBytes(orig, data.Length, lead, k + 1, written + [ToByte(Padded(orig, count))])
  {
    overflow := StoreRead(input, data, count, orig);
    if overflow {
      ContinuationEnd(orig, data.Length, lead, k, written);
    } else {
      ContinuationMore(orig, data.Length, lead, k, written);
    }
  }

  /** `GarbledRepai`'s inner loop, from the lead byte `lead` just stored at `data[count0 - 1]`. */
  method ReadContinuation(input: ByteInput, data: array<int8>, count0: nat, lead: int, ghost orig: seq<int>)
    returns (count: nat, overflow: bool)
    requires input.Valid() && Bytes(orig) && 128 <= lead < 256 && count0 <= data.Length
    requires input.remaining == orig[Min(count0, |orig|)..]
    modifies input, data
    ensures input.Valid()
    ensures var s := ContinuationBytes(orig, data.Length, lead, 0, old(data[..count0]));
            && overflow == s.overflow && count == |s.written|
            && data[..count] == s.written && input.remaining == orig[Taken(orig, s)..]
    ensures forall j :: count <= j < data.Length ==> data[j] == old(data[j])
  {
    ghost var written := data[..count0];
    ghost var spec := ContinuationBytes(orig, data.Length, lead, 0, written);
    var read := lead;
    count := count0;
    overflow := false;
    ghost var k := 0;
    while (read / 64) % 2 != 0
      invariant k <= 7 && read == Shifted(lead, k)
      invariant count <= data.Length && count == |written| && data[..count] == written
      invariant input.Valid() && input.remaining == orig[Min(count, |orig|)..]
      invariant forall j :: count <= j < data.Length ==> data[j] == old(data[j])
      invariant spec == ContinuationBytes(orig, data.Length, lead, k, written)
      decreases 7 - k
    {
      ShiftedBit6(lead, k);
      overflow := StoreContinuation(input, data, count, lead, k, orig, written);
      if overflow {
        break;
      }
      written := written + [ToByte(Padded(orig, count))];
      read := read * 2;
      count := count + 1;
      k := k + 1;
    }
    if !overflow {
      ShiftedBit6(lead, k);
      ContinuationEnd(orig, data.Length, lead, k, written);
    }
  }

  /** One character of `GarbledRepai`'s outer loop: the lead byte `read`, then its continuation bytes. */
  method StoreCharacter(input: ByteInput, data: array<int8>, count0: nat, read: int, ghost orig: seq<int>)
    returns (count: nat, overflow: bool)
    requires input.Valid() && Bytes(orig)
    requires count0 < |orig| && read == orig[count0] && input.remaining == orig[count0 + 1..]
    requires count0 < data.Length
    modifies input, data
    ensures input.Valid()
    ensures var s := CharacterStep(orig, data.Length, read, old(data[..count0]));
            && overflow == s.overflow && count == |s.written|
            && data[..count] == s.written && input.remaining == orig[Taken(orig, s)..]
    ensures forall j :: count <= j < data.Length ==> data[j] == old(data[j])
  {
    data[count0] := ToByte(read);
    assert data[..count0 + 1] == old(data[..count0]) + [ToByte(read)];
    count := count0 + 1;
    overflow := false;
    if read >= 128 {
      count, overflow := ReadContinuation(input, data, count, read, orig);
    }
  }

  /**
   * One turn of `GarbledRepai`'s outer loop: store the character led by
   * `read0`, then read the next lead byte if four bytes of room remain.
   * `stop` says the method returns `result` now.
   */
  method NextCharacter(input: ByteInput, data: array<int8>, count0: nat, read0: int, ghost orig: seq<int>, ghost written0: seq<int8>)
    returns (count: nat, read: int, stop: bool, result: Outcome)
    requires input.Valid() && Bytes(orig)
    requires count0 < |orig| && read0 == orig[count0] && input.remaining == orig[count0 + 1..]
    requires count0 < data.Length && count0 == |written0| && data[..count0] == written0
    modifies input, data
    ensures input.Valid()
    ensures forall j :: count <= j < data.Length ==> data[j] == old(data[j])
    ensures var s := CharacterStep(orig, data.Length, read0, written0);
            && count == |s.written| && data[..count] == s.written
            && (stop ==> Characters(orig, data.Length, read0, written0) == Fill(s.written, Taken(orig, s), result)
                         && input.remaining == orig[Taken(orig, s)..])
            && (!stop ==> && count < |orig| && read == orig[count] && input.remaining == orig[count + 1..]
                          && Characters(orig, data.Length, read0, written0) == Characters(orig, data.Length, read, s.written))
  {
    var overflow;
    count, overflow := StoreCharacter(input, data, count0, read0, orig);
    if overflow {
      CharactersStop(orig, data.Length, read0, written0, IndexOutOfBounds);
      return count, read0, true, IndexOutOfBounds;
    }
    if data.Length - 4 >= count {
      read := input.Read();
      if read == -1 {
        CharactersStop(orig, data.Length, read0, written0, Count(count));
        return count, read, true, Count(count);
      }
      CharactersContinue(orig, data.Length, read0, written0);
      return count, read, false, Count(count);
    }
    CharactersStop(orig, data.Length, read0, written0, Count(count));
    return count, read0, true, Count(count);
  }

  /** `GarbledRepai(mInput, data)` */
  method GarbledRepai(input: ByteInput, data: array<int8>) returns (outcome: Outcome)
    requires input.Valid()
    modifies input, data
    ensures input.Valid()
    ensures var f := GarbledRepair(old(input.remaining), data.Length);
            && outcome == f.outcome
            && data[..|f.written|] == f.written && input.remaining == old(input.remaining)[f.pos..]
    ensures forall j :: |GarbledRepair(old(input.remaining), data.Length).written| <= j < data.Length ==> data[j] == old(data[j])
  {
    ghost var orig := input.remaining;
    ghost var f := GarbledRepair(orig, data.Length);
    var read := input.Read();
    if read < 0 {
      return EndOfStream;
    }
    var count := 0;
    var dataSize := data.Length;
    ghost var written: seq<int8> := [];
    while read >= 0 && count < dataSize
      invariant input.Valid() && 0 <= read
      invariant 0 <= count < |orig| && read == orig[count] && input.remaining == orig[count + 1..]
      invariant count <= dataSize && count == |written| && data[..count] == written
      invariant forall j :: count <= j < dataSize ==> data[j] == old(data[j])
      invariant f == Characters(orig, dataSize, read, written)
      decreases dataSize - count
    {
      ghost var s := CharacterStep(orig, dataSize, read, written);
      var stop, result;
      count, read, stop, result := NextCharacter(input, data, count, read, orig, written);
      written := s.written;
      if stop {
        return result;
      }
    }
    return Count(count);
  }

  // ---------------------------------------------------------------------------
  // NDKEenhancement
  // ---------------------------------------------------------------------------

  /** The `List<String>` of ndk-build arguments. */
  class ArgumentList {
    var items: seq<string>

    constructor (items: seq<string>)
      ensures this.items == items
    {
      this.items := items;
    }

    /** `List.add` */
    method Add(s: string)
      modifies this
      ensures items == old(items) + [s]
    {
      items := items + [s];
    }
  }

  const NdkProjectPath: string := "NDK_PROJECT_PATH=."
  const AppBuildScript: string := "APP_BUILD_SCRIPT=src/main/jni/Android.mk"
  const NdkAppOut: string := "NDK_APP_OUT=src/main/obj"
  const NdkLibsOut: string := "NDK_LIBS_OUT=src/main/jniLibs"

  /** The arguments that point ndk-build at the Gradle source layout. */
  const GradleLayoutArguments: seq<string> := [NdkProjectPath, AppBuildScript, NdkAppOut, NdkLibsOut]

  /** The file, relative to the project, whose presence adds `NDK_APPLICATION_MK`. */
  const ApplicationMk: string := "src/main/jni/Application.mk"

  const ApplicationMkArgument: string := "NDK_APPLICATION_MK=" + ApplicationMk

  /**
   * `NDKEenhancement(list, project)`: nothing for a project that is not a
   * Gradle project; otherwise the four layout arguments in order, and the
   * `Application.mk` argument only when that file exists.
   */
  method NDKEnhancement(list: ArgumentList, isGradleProject: bool, applicationMkExists: bool)
    modifies list
    ensures !isGradleProject ==> list.items == old(list.items)
    ensures isGradleProject ==>
              list.items == old(list.items) + GradleLayoutArguments + (if applicationMkExists then [ApplicationMkArgument] else [])
  {
    if isGradleProject {
      list.Add(NdkProjectPath);
      list.Add(AppBuildScript);
      list.Add(NdkAppOut);
      list.Add(NdkLibsOut);
      if applicationMkExists {
        list.Add("NDK_APPLICATION_MK=" + ApplicationMk);
      }
    }
  }
}
