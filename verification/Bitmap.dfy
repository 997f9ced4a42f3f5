/** basic_bitmap (lib/bitmap.h, lib/bitmap.cpp): range updates and run searches over 64-bit words. */
module Bitmap {
  import opened Bits
  import opened BitWord

  const INT_MAX: nat := 0x7fff_ffff

  /** Bit `k` of a sequence of words. */
  predicate BitAt(words: seq<Word>, k: nat)
    requires k < 64 * |words|
  {
    Bit(words[k / 64], k % 64)
  }

  /** `after` is `before` with bits `from` to `to` set to `value`, and no other bit changed. */
  ghost predicate RangeWritten(before: seq<Word>, after: seq<Word>, from: nat, to: nat, value: bool) {
    && |after| == |before|
    && forall k :: 0 <= k < 64 * |before| ==> BitAt(after, k) == if from <= k < to then value else BitAt(before, k)
  }

  lemma RangeCompose(a: seq<Word>, b: seq<Word>, c: seq<Word>, from: nat, mid: nat, mid': nat, to: nat, value: bool)
    requires RangeWritten(a, b, from, mid, value) && RangeWritten(b, c, mid', to, value)
    requires from <= mid' <= mid <= to
    ensures RangeWritten(a, c, from, to, value)
  {
  }

  /** Replacing one word whose bits differ as wanted. */
  lemma WordWritten(before: seq<Word>, i: nat, w: Word, from: nat, to: nat, value: bool)
    requires i < |before| && 64 * i <= from <= to <= 64 * i + 64
    requires forall j: nat :: j < 64 ==>
               Bit(w, j) == if from <= 64 * i + j < to then value else Bit(before[i], j)
    ensures RangeWritten(before, before[i := w], from, to, value)
  {
    forall k | 0 <= k < 64 * |before|
      ensures BitAt(before[i := w], k) == if from <= k < to then value else BitAt(before, k)
    {
      assert k == 64 * (k / 64) + k % 64;
    }
  }

  /** Where the whole bytes and the whole words of `count` bits end. */
  lemma BytesAndWords(start: nat, count: nat, at: nat, rest: nat, mid: nat)
    requires at == start + count / 64 && rest == count % 64 && mid == 64 * start + 8 * (count / 8)
    ensures 64 * start <= 64 * at <= mid <= 64 * at + rest == 64 * start + count
    ensures rest == 0 ==> mid == 64 * start + count
  {
    var b, w := count / 8, count / 64;
    assert count == 64 * w + rest;
    assert b == 8 * w + rest / 8;
  }

  /** w | (mask(rest) - 1) */
  function SetLow(w: Word, rest: nat): (r: Word)
    requires rest < 64
    ensures forall j: nat :: j < 64 ==> Bit(r, j) == if j < rest then true else Bit(w, j)
  {
    OrWord(w, Below(rest))
  }

  /** w & ~(mask(rest) - 1) */
  function ClearLow(w: Word, rest: nat): (r: Word)
    requires rest < 64
    ensures forall j: nat :: j < 64 ==> Bit(r, j) == if j < rest then false else Bit(w, j)
  {
    AndWord(w, NotWord(Below(rest)))
  }

  lemma TailWritten(before: seq<Word>, i: nat, rest: nat, w: Word, value: bool)
    requires i < |before| && rest < 64
    requires forall j: nat :: j < 64 ==> Bit(w, j) == if j < rest then value else Bit(before[i], j)
    ensures RangeWritten(before, before[i := w], 64 * i, 64 * i + rest, value)
  {
    WordWritten(before, i, w, 64 * i, 64 * i + rest, value);
  }

  /** The number of bits from `i` to `size` that have the value, up to the first that has not. */
  function RunLength(words: seq<Word>, size: nat, i: nat, value: bool): (n: nat)
    requires size <= 64 * |words|
    ensures i + n <= size || n == 0
    ensures forall k :: i <= k < i + n ==> k < size && BitAt(words, k) == value
    ensures i + n < size ==> BitAt(words, i + n) != value
    decreases if i < size then size - i else 0
  {
    if i < size && BitAt(words, i) == value then 1 + RunLength(words, size, i + 1, value) else 0
  }

  function Min(a: nat, b: nat): nat {
    if a < b then a else b
  }

  /** `length` is no more than the run at `index`, and as much as far as `count` goes. */
  ghost predicate MeasuresRun(words: seq<Word>, size: nat, index: nat, count: nat, value: bool, length: nat)
    requires size <= 64 * |words|
  {
    var run := RunLength(words, size, index, value);
    length <= run && Min(length, count) == Min(run, count)
  }

  /** The words before `at` are scanned: from `index` on only the last of them may hold other bits, which `rest` shows.
      */
  ghost predicate Scanned(words: seq<Word>, index: nat, at: nat, rest: Word, value: bool)
    requires 0 < at <= |words|
  {
    && (forall k :: index <= k < 64 * (at - 1) ==> BitAt(words, k) == value)
    && (forall j: nat :: j < 64 ==> (Bit(rest, j) <==> 64 * (at - 1) + j >= index && Bit(words[at - 1], j) != value))
  }

  lemma ScannedBit(words: seq<Word>, index: nat, at: nat, rest: Word, value: bool, k: nat)
    requires 0 < at <= |words| && index < 64 * at && Scanned(words, index, at, rest, value) && index <= k < 64 * at
    ensures BitAt(words, k) == value <==> k < 64 * (at - 1) || !Bit(rest, k - 64 * (at - 1))
  {
    if k >= 64 * (at - 1) {
      assert k / 64 == at - 1 && k % 64 == k - 64 * (at - 1);
    }
  }

  lemma NextScanned(words: seq<Word>, index: nat, at: nat, value: bool)
    requires 0 < at <= |words| && index < 64 * at && Scanned(words, index, at, 0, value)
    ensures forall k :: index <= k < 64 * at ==> BitAt(words, k) == value
  {
    forall k | index <= k < 64 * at ensures BitAt(words, k) == value {
      ScannedBit(words, index, at, 0, value, k);
      if k >= 64 * (at - 1) { ZeroBit(k - 64 * (at - 1)); }
    }
  }

  /** Everything up to the end of the last word scanned has the value. */
  lemma AllScanned(words: seq<Word>, size: nat, index: nat, count: nat, at: nat, value: bool)
    requires 0 < at <= |words| && size <= 64 * |words| && index < size && index < 64 * at
    requires Scanned(words, index, at, 0, value)
    requires index + Min(count, size - index) <= 64 * at
    ensures MeasuresRun(words, size, index, count, value, Min(count, size - index))
  {
    hide Scanned, Bit;
    var run := RunLength(words, size, index, value);
    if index + run < Min(index + count, size) {
      ScannedBit(words, index, at, 0, value, index + run);
      ZeroBit(index + run - 64 * (at - 1));
    }
  }

  /** The scan stopped at the lowest bit of `rest`. */
  lemma StopScanned(words: seq<Word>, size: nat, index: nat, count: nat, at: nat, rest: Word, length: int, value: bool)
    requires 0 < at <= |words| && size <= 64 * |words| && index < size && index < 64 * at
    requires Scanned(words, index, at, rest, value) && rest > 0
    requires length == 64 * at - index + Bsf(rest) - 64
    ensures 0 <= length
    ensures MeasuresRun(words, size, index, count, value, if length > size - index then size - index else length)
  {
    BsfInWord(rest);
    var stop := 64 * (at - 1) + Bsf(rest);
    ScannedBit(words, index, at, rest, value, stop);
    var run := RunLength(words, size, index, value);
    if index + run < stop && index + run < size {
      ScannedBit(words, index, at, rest, value, index + run);
    }
  }

  // -------- Searches

  /** All of the `count` bits at `p` have the value. */
  predicate AllAre(words: seq<Word>, p: nat, count: nat, value: bool)
    requires p + count <= 64 * |words|
  {
    forall k :: p <= k < p + count ==> BitAt(words, k) == value
  }

  /** No run of `count` bits starts at `from` or later, but before `to`. */
  ghost predicate NoneBefore(words: seq<Word>, size: nat, from: nat, to: nat, count: nat, value: bool)
    requires size <= 64 * |words|
  {
    forall p: nat :: from <= p < to && p + count <= size ==> !AllAre(words, p, count, value)
  }

  /** `r` is the least start of a run at or after `from`, or -1 if there is none. */
  ghost predicate IsFirst(words: seq<Word>, size: nat, from: nat, count: nat, value: bool, r: int)
    requires size <= 64 * |words|
  {
    if r == -1 then NoneBefore(words, size, from, size, count, value)
    else
      && from <= r && r + count <= size && AllAre(words, r, count, value)
      && NoneBefore(words, size, from, r, count, value)
  }

  lemma RunCovers(words: seq<Word>, size: nat, p: nat, count: nat, value: bool)
    requires size <= 64 * |words| && p + count <= size
    ensures RunLength(words, size, p, value) >= count <==> AllAre(words, p, count, value)
  {
    var run := RunLength(words, size, p, value);
    if run < count { assert BitAt(words, p + run) != value; }
  }

  /** Runs of the other value contain no start. */
  lemma SkipOthers(words: seq<Word>, size: nat, from: nat, at: nat, count: nat, value: bool, other: nat)
    requires size <= 64 * |words| && size <= INT_MAX && from <= at <= size && count > 0
    requires NoneBefore(words, size, from, at, count, value)
    requires MeasuresRun(words, size, at, INT_MAX, !value, other)
    ensures other == RunLength(words, size, at, !value) && at + other <= size
    ensures NoneBefore(words, size, from, at + other, count, value)
  {
    forall p: nat | at <= p < at + other && p + count <= size ensures !AllAre(words, p, count, value) {
      assert BitAt(words, p) == !value;
    }
  }

  /** A run that is too short contains no start, nor does the bit after it. */
  lemma SkipShort(words: seq<Word>, size: nat, from: nat, at: nat, count: nat, value: bool, length: nat)
    requires size <= 64 * |words| && from <= at <= size && length < count
    requires NoneBefore(words, size, from, at, count, value)
    requires MeasuresRun(words, size, at, count, value, length)
    ensures length == RunLength(words, size, at, value) && at + length <= size
    ensures NoneBefore(words, size, from, at + length, count, value)
  {
    forall p: nat | at <= p < at + length && p + count <= size ensures !AllAre(words, p, count, value) {
      assert BitAt(words, at + length) != value;
    }
  }

  /** One of the two runs is not empty. */
  lemma Progress(words: seq<Word>, size: nat, at: nat, value: bool, other: nat, count: nat, length: nat)
    requires size <= 64 * |words| && at < size
    requires other == RunLength(words, size, at, !value)
    requires length == RunLength(words, size, at + other, value)
    ensures other + length > 0
    ensures at + other + length < size ==> BitAt(words, at + other + length) != value
  {
  }

  /** The search stands at its start, at the end, or at a bit of the other value. */
  ghost predicate Turned(words: seq<Word>, size: nat, start: nat, at: nat, value: bool)
    requires size <= 64 * |words|
  {
    at == start || at == size || (at < size && BitAt(words, at) != value)
  }

  /** One turn of the search: over the run of the other value at `at`, and the run after it. */
  lemma SearchStep(words: seq<Word>, size: nat, from: nat, at: nat, count: nat, value: bool, other: nat, length: nat)
    requires size <= 64 * |words| && size <= INT_MAX && from <= at < size && count > 0
    requires NoneBefore(words, size, from, at, count, value)
    requires MeasuresRun(words, size, at, INT_MAX, !value, other)
    requires MeasuresRun(words, size, at + other, count, value, length)
    ensures length >= count ==> IsFirst(words, size, from, count, value, at + other)
    ensures length < count ==>
              && at < at + other + length <= size
              && NoneBefore(words, size, from, at + other + length, count, value)
              && Turned(words, size, from, at + other + length, value)
  {
    SkipOthers(words, size, from, at, count, value, other);
    if length >= count {
      RunCovers(words, size, at + other, count, value);
    } else {
      SkipShort(words, size, from, at + other, count, value, length);
      Progress(words, size, at, value, other, count, length);
    }
  }

  lemma SearchStart(words: seq<Word>, size: nat, start: nat, count: nat, value: bool)
    requires size <= 64 * |words|
    ensures NoneBefore(words, size, start, start, count, value) && Turned(words, size, start, start, value)
  {
  }

  /** The search gives up when no room is left for a run. */
  lemma SearchEnd(words: seq<Word>, size: nat, start: nat, at: nat, count: nat, value: bool)
    requires size <= 64 * |words| && start <= at <= size < at + count
    requires NoneBefore(words, size, start, at, count, value)
    ensures IsFirst(words, size, start, count, value, -1)
  {
  }

  lemma NoneAtEnd(words: seq<Word>, size: nat, start: nat, at: nat, count: nat)
    requires size <= 64 * |words| && start <= at <= size <= at + count && count > 0 && start + count != size
    requires NoneBefore(words, size, start, at, count, false)
    requires Turned(words, size, start, at, false)
    ensures IsFirst(words, size, start, count, false, -1)
  {
    forall p: nat | at <= p && p + count <= size ensures !AllAre(words, p, count, false) {
      assert p == at;
    }
  }

  /** When find_first_clear answers -1 for the last `count` bits, the answer is right exactly if they are not all clear.
      */
  lemma MissedLastRun(words: seq<Word>, size: nat, start: nat, count: nat)
    requires size <= 64 * |words| && count > 0 && start + count == size
    ensures IsFirst(words, size, start, count, false, -1) <==> !AllAre(words, start, count, false)
  {
    if !AllAre(words, start, count, false) {
      forall p: nat | start <= p < size && p + count <= size ensures !AllAre(words, p, count, false) {
        assert p == start;
      }
    }
  }

  class BasicBitmap {
    const buffer: array<Word>
    const sizeInBits: nat

    constructor (buffer: array<Word>, sizeInBits: nat)
      requires sizeInBits <= 64 * buffer.Length && sizeInBits <= INT_MAX
      ensures this.buffer == buffer && this.sizeInBits == sizeInBits && Valid()
    {
      this.buffer := buffer;
      this.sizeInBits := sizeInBits;
    }

    predicate Valid() {
      sizeInBits <= 64 * buffer.Length && sizeInBits <= INT_MAX
    }

    /** memset(&buffer[start], value ? ~0 : 0, bytes) */
    method Memset(start: nat, bytes: nat, value: bool)
      requires 8 * start + bytes <= 8 * buffer.Length
      modifies buffer
      ensures RangeWritten(old(buffer[..]), buffer[..], 64 * start, 64 * start + 8 * bytes, value)
    {
      for b := 0 to bytes
        invariant RangeWritten(old(buffer[..]), buffer[..], 64 * start, 64 * start + 8 * b, value)
      {
        ghost var before := buffer[..];
        var i := start + b / 8;
        var w := FillByte(buffer[i], b % 8, value);
        WordWritten(before, i, w, 64 * start + 8 * b, 64 * start + 8 * b + 8, value);
        buffer[i] := w;
        assert buffer[..] == before[i := w];
        RangeCompose(old(buffer[..]), before, buffer[..], 64 * start, 64 * start + 8 * b, 64 * start + 8 * b,
                     64 * start + 8 * b + 8, value);
      }
    }

    /** The part of set from a word boundary on. */
    method SetAligned(start: nat, count: nat)
      requires 64 * start + count <= 64 * buffer.Length
      modifies buffer
      ensures RangeWritten(old(buffer[..]), buffer[..], 64 * start, 64 * start + count, true)
    {
      Memset(start, count / 8, true);
      ghost var m1, mid := buffer[..], 64 * start + 8 * (count / 8);
      var at := start + count / 64;
      var rest := count % 64;
      BytesAndWords(start, count, at, rest, mid);
      if rest != 0 {
        var w := SetLow(buffer[at], rest);
        TailWritten(m1, at, rest, w, true);
        buffer[at] := w;
        assert buffer[..] == m1[at := w];
        RangeCompose(old(buffer[..]), m1, buffer[..], 64 * start, mid, 64 * at, 64 * at + rest, true);
      }
    }

    /** set(index, count) */
    method Set(index: nat, count: nat)
      requires index + count <= 64 * buffer.Length
      modifies buffer
      ensures RangeWritten(old(buffer[..]), buffer[..], index, index + count, true)
    {
      var at := index / 64;
      var bits := index % 64;
      if bits == 0 {
        SetAligned(at, count);
        return;
      }
      bits := 64 - bits;
      if count < bits {
        bits := bits - count;
        var w := OrWord(buffer[at], ShrWord(ShlWord(From(index), bits), bits));
        WordWritten(buffer[..], at, w, index, index + count, true);
        buffer[at] := w;
        assert buffer[..] == old(buffer[..])[at := w];
        return;
      }
      var w := OrWord(buffer[at], From(index));
      WordWritten(buffer[..], at, w, index, index + bits, true);
      buffer[at] := w;
      ghost var m1 := buffer[..];
      assert m1 == old(buffer[..])[at := w];
      SetAligned(at + 1, count - bits);
      RangeCompose(old(buffer[..]), m1, buffer[..], index, index + bits, index + bits, index + count, true);
    }

    /** The part of clear from a word boundary on. */
    method ClearAligned(start: nat, count: nat)
      requires 64 * start + count <= 64 * buffer.Length
      modifies buffer
      ensures RangeWritten(old(buffer[..]), buffer[..], 64 * start, 64 * start + count, false)
    {
      Memset(start, count / 8, false);
      ghost var m1, mid := buffer[..], 64 * start + 8 * (count / 8);
      var at := start + count / 64;
      var rest := count % 64;
      BytesAndWords(start, count, at, rest, mid);
      if rest != 0 {
        var w := ClearLow(buffer[at], rest);
        TailWritten(m1, at, rest, w, false);
        buffer[at] := w;
        assert buffer[..] == m1[at := w];
        RangeCompose(old(buffer[..]), m1, buffer[..], 64 * start, mid, 64 * at, 64 * at + rest, false);
      }
    }

    /** clear(index, count) */
    method Clear(index: nat, count: nat)
      requires index + count <= 64 * buffer.Length
      modifies buffer
      ensures RangeWritten(old(buffer[..]), buffer[..], index, index + count, false)
    {
      var at := index / 64;
      var bits := index % 64;
      if bits == 0 {
        ClearAligned(at, count);
        return;
      }
      bits := 64 - bits;
      if count < bits {
        bits := bits - count;
        var w := AndWord(buffer[at], NotWord(ShrWord(ShlWord(From(index), bits), bits)));
        WordWritten(buffer[..], at, w, index, index + count, false);
        buffer[at] := w;
        assert buffer[..] == old(buffer[..])[at := w];
        return;
      }
      var w := AndWord(buffer[at], Below(index));
      WordWritten(buffer[..], at, w, index, index + bits, false);
      buffer[at] := w;
      ghost var m1 := buffer[..];
      assert m1 == old(buffer[..])[at := w];
      ClearAligned(at + 1, count - bits);
      RangeCompose(old(buffer[..]), m1, buffer[..], index, index + bits, index + bits, index + count, false);
    }

    // -------- Runs

    /** get_length_of_set(index, count) */
    method GetLengthOfSet(index: nat, count: nat) returns (length: nat)
      requires Valid()
      ensures MeasuresRun(buffer[..], sizeInBits, index, count, true, length)
    {
      if index >= sizeInBits {
        return 0;
      }
      var at := index / 64;
      var bitPosition := index % 64;
      var count' := if count < sizeInBits - index then count else sizeInBits - index;
      var max := at + (bitPosition + count' + 63) / 64;
      var invValue := ShlWord(ShrWord(NotWord(buffer[at]), bitPosition), bitPosition);
      at := at + 1;
      while invValue == 0 && at < max
        invariant at <= buffer.Length && index < 64 * at && index / 64 < at
        invariant Scanned(buffer[..], index, at, invValue, true)
        invariant invValue == 0 || at <= max || at == index / 64 + 1
        decreases max - at
      {
        NextScanned(buffer[..], index, at, true);
        invValue := NotWord(buffer[at]);
        at := at + 1;
      }
      if invValue == 0 {
        AllScanned(buffer[..], sizeInBits, index, count, at, true);
        return count';
      }
      bitPosition := Bsf(invValue);
      BsfInWord(invValue);
      length := 64 * at - index + bitPosition - 64;
      StopScanned(buffer[..], sizeInBits, index, count, at, invValue, length, true);
      if length > sizeInBits - index {
        length := sizeInBits - index;
      }
    }

    /** get_length_of_clear(index, count) */
    method GetLengthOfClear(index: nat, count: nat) returns (length: nat)
      requires Valid()
      ensures MeasuresRun(buffer[..], sizeInBits, index, count, false, length)
    {
      if index >= sizeInBits {
        return 0;
      }
      var at := index / 64;
      var bitPosition := index % 64;
      var count' := if count < sizeInBits - index then count else sizeInBits - index;
      var max := at + (bitPosition + count' + 63) / 64;
      var value := ShlWord(ShrWord(buffer[at], bitPosition), bitPosition);
      at := at + 1;
      while value == 0 && at < max
        invariant at <= buffer.Length && index < 64 * at && index / 64 < at
        invariant Scanned(buffer[..], index, at, value, false)
        invariant value == 0 || at <= max || at == index / 64 + 1
        decreases max - at
      {
        NextScanned(buffer[..], index, at, false);
        value := buffer[at];
        at := at + 1;
      }
      if value == 0 {
        AllScanned(buffer[..], sizeInBits, index, count, at, false);
        return count';
      }
      bitPosition := Bsf(value);
      BsfInWord(value);
      length := 64 * at - index + bitPosition - 64;
      StopScanned(buffer[..], sizeInBits, index, count, at, value, length, false);
      if length > sizeInBits - index {
        length := sizeInBits - index;
      }
    }

    /** are_bits_set(index, count) */
    method AreBitsSet(index: nat, count: int) returns (b: bool)
      requires Valid()
      ensures b <==> 0 < count && index + count <= sizeInBits && AllAre(buffer[..], index, count, true)
    {
      if index + count > sizeInBits || index + count <= index {
        return false;
      }
      var length := GetLengthOfSet(index, count);
      RunCovers(buffer[..], sizeInBits, index, count, true);
      b := length >= count;
    }

    /** are_bits_clear(index, count) */
    method AreBitsClear(index: nat, count: int) returns (b: bool)
      requires Valid()
      ensures b <==> 0 < count && index + count <= sizeInBits && AllAre(buffer[..], index, count, false)
    {
      if index + count > sizeInBits || index + count <= index {
        return false;
      }
      var length := GetLengthOfClear(index, count);
      RunCovers(buffer[..], sizeInBits, index, count, false);
      b := length >= count;
    }

    // -------- Searches

    /** find_first_set(index, count): -1 stands for not found, and an index beyond the bitmap means its beginning. */
    method FindFirstSet(index: nat, count: nat) returns (r: int)
      requires Valid()
      ensures count > sizeInBits ==> r == -1
      ensures count == 0 ==> r == if index < sizeInBits then index / 8 * 8 else 0
      ensures 0 < count <= sizeInBits && index < sizeInBits ==>
                IsFirst(buffer[..], sizeInBits, index, count, true, r)
      ensures 0 < count <= sizeInBits <= index ==> IsFirst(buffer[..], sizeInBits, 0, count, true, r)
    {
      hide MeasuresRun, NoneBefore, Turned, IsFirst;
      if count > sizeInBits {
        return -1;
      }
      var start := if index >= sizeInBits then 0 else index;
      if count == 0 {
        return start / 8 * 8;
      }
      var currentBit := start;
      SearchStart(buffer[..], sizeInBits, start, count, true);
      while currentBit + count <= sizeInBits
        invariant start <= currentBit <= sizeInBits
        invariant NoneBefore(buffer[..], sizeInBits, start, currentBit, count, true)
        decreases sizeInBits - currentBit
      {
        var other := GetLengthOfClear(currentBit, INT_MAX);
        var currentLength := GetLengthOfSet(currentBit + other, count);
        SearchStep(buffer[..], sizeInBits, start, currentBit, count, true, other, currentLength);
        currentBit := currentBit + other;
        if currentLength >= count {
          return currentBit;
        }
        currentBit := currentBit + currentLength;
      }
      SearchEnd(buffer[..], sizeInBits, start, currentBit, count, true);
      return -1;
    }

    /** find_first_clear(index, count): the loop ends one position early, so a run is missed if it is the last `count`
        bits and starts right at the index. */
    method FindFirstClear(index: nat, count: nat) returns (r: int)
      requires Valid()
      ensures count > sizeInBits ==> r == -1
      ensures count == 0 ==> r == if index < sizeInBits then index / 8 * 8 else 0
      ensures 0 < count <= sizeInBits && index < sizeInBits ==>
                if index + count == sizeInBits then r == -1
                else IsFirst(buffer[..], sizeInBits, index, count, false, r)
      ensures 0 < count <= sizeInBits <= index ==>
                if count == sizeInBits then r == -1 else IsFirst(buffer[..], sizeInBits, 0, count, false, r)
    {
      hide MeasuresRun, NoneBefore, Turned, IsFirst;
      if count > sizeInBits {
        return -1;
      }
      var start := if index >= sizeInBits then 0 else index;
      if count == 0 {
        return start / 8 * 8;
      }
      var currentBit := start;
      SearchStart(buffer[..], sizeInBits, start, count, false);
      while currentBit + count < sizeInBits
        invariant start <= currentBit <= sizeInBits
        invariant NoneBefore(buffer[..], sizeInBits, start, currentBit, count, false)
        invariant Turned(buffer[..], sizeInBits, start, currentBit, false)
        invariant currentBit == start || start + count < sizeInBits
        decreases sizeInBits - currentBit
      {
        var other := GetLengthOfSet(currentBit, INT_MAX);
        var currentLength := GetLengthOfClear(currentBit + other, count);
        SearchStep(buffer[..], sizeInBits, start, currentBit, count, false, other, currentLength);
        currentBit := currentBit + other;
        if currentLength >= count {
          return currentBit;
        }
        currentBit := currentBit + currentLength;
      }
      if start + count != sizeInBits {
        NoneAtEnd(buffer[..], sizeInBits, start, currentBit, count);
      }
      return -1;
    }
  }
}
