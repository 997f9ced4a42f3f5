/** CImageData: payloads packed one behind the other, each under a GUID (detours/image.cpp). */
module ImageData {
  import opened ByteBuffer
  import opened Wrappers

  /** The header of a record: its length, a zero, and the GUID. */
  const RECORD: nat := 24
  const GUID: nat := 16

  datatype Record = Record(guid: seq<Byte>, data: seq<Byte>) {

    predicate Fits() {
      |guid| == GUID && RECORD + |data| < DWORD_LIMIT
    }

    function Bytes(): (b: seq<Byte>)
      requires Fits()
      ensures |b| == RECORD + |data|
    {
      Le(RECORD + |data|, 4) + (Le(0, 4) + guid) + data
    }
  }

  predicate AllFit(rs: seq<Record>) {
    forall k :: 0 <= k < |rs| ==> rs[k].Fits()
  }

  function Packed(rs: seq<Record>): seq<Byte>
    requires AllFit(rs)
  {
    if rs == [] then [] else rs[0].Bytes() + Packed(rs[1..])
  }

  /** Where record `k` begins. */
  function Begin(rs: seq<Record>, k: nat): nat
    requires AllFit(rs) && k <= |rs|
  {
    if k == 0 then 0 else RECORD + |rs[0].data| + Begin(rs[1..], k - 1)
  }

  // -------- The list as a map

  /** The first record of the GUID, or the end of the list. */
  function Index(rs: seq<Record>, guid: seq<Byte>): (k: nat)
    ensures k <= |rs| && (k < |rs| ==> rs[k].guid == guid)
    ensures forall j :: 0 <= j < k ==> rs[j].guid != guid
  {
    if rs == [] || rs[0].guid == guid then 0 else 1 + Index(rs[1..], guid)
  }

  function Lookup(rs: seq<Record>, guid: seq<Byte>): Option<seq<Byte>> {
    var k := Index(rs, guid);
    if k < |rs| then Some(rs[k].data) else None
  }

  function Removed(rs: seq<Record>, guid: seq<Byte>): seq<Record> {
    var k := Index(rs, guid);
    if k < |rs| then rs[..k] + rs[k + 1..] else rs
  }

  function Count(rs: seq<Record>, guid: seq<Byte>): nat {
    if rs == [] then 0 else (if rs[0].guid == guid then 1 else 0) + Count(rs[1..], guid)
  }

  lemma {:induction false} IndexAppend(a: seq<Record>, b: seq<Record>, guid: seq<Byte>)
    ensures Index(a + b, guid) == if Index(a, guid) < |a| then Index(a, guid) else |a| + Index(b, guid)
  {
    if a == [] {
      assert a + b == b;
    } else {
      assert (a + b)[1..] == a[1..] + b;
      IndexAppend(a[1..], b, guid);
    }
  }

  lemma LookupAppend(a: seq<Record>, b: seq<Record>, guid: seq<Byte>)
    ensures Lookup(a + b, guid) == if Lookup(a, guid).Some? then Lookup(a, guid) else Lookup(b, guid)
  {
    IndexAppend(a, b, guid);
  }

  lemma {:induction false} CountAppend(a: seq<Record>, b: seq<Record>, guid: seq<Byte>)
    ensures Count(a + b, guid) == Count(a, guid) + Count(b, guid)
  {
    if a == [] {
      assert a + b == b;
    } else {
      assert (a + b)[1..] == a[1..] + b;
      CountAppend(a[1..], b, guid);
    }
  }

  lemma {:induction false} CountIsLookup(rs: seq<Record>, guid: seq<Byte>)
    ensures Count(rs, guid) == 0 <==> Lookup(rs, guid).None?
  {
    if rs != [] {
      CountIsLookup(rs[1..], guid);
    }
  }

  /** Removing a GUID takes one record of it, and no other. */
  lemma RemovedCounts(rs: seq<Record>, guid: seq<Byte>, other: seq<Byte>)
    ensures Count(Removed(rs, guid), other)
         == if other == guid && Count(rs, guid) > 0 then Count(rs, guid) - 1 else Count(rs, other)
    ensures other != guid ==> Lookup(Removed(rs, guid), other) == Lookup(rs, other)
  {
    var k := Index(rs, guid);
    CountIsLookup(rs, guid);
    if k < |rs| {
      var a, r, b := rs[..k], [rs[k]], rs[k + 1..];
      assert rs == a + (r + b);
      CountAppend(a, r + b, other);
      CountAppend(r, b, other);
      CountAppend(a, b, other);
      LookupAppend(a, r + b, other);
      LookupAppend(r, b, other);
      LookupAppend(a, b, other);
      assert r[1..] == [];
    }
  }

  /** What Set makes of the list. */
  function Stored(rs: seq<Record>, guid: seq<Byte>, data: seq<Byte>): seq<Record> {
    Removed(rs, guid) + [Record(guid, data)]
  }

  lemma LookupOne(r: Record, guid: seq<Byte>)
    ensures Lookup([r], guid) == if r.guid == guid then Some(r.data) else None
  {
  }

  /** After Set the GUID has its new data exactly when at most one record had it before, or the next one had the same
      data; the other GUIDs keep theirs. */
  lemma StoredLookup(rs: seq<Record>, guid: seq<Byte>, data: seq<Byte>, other: seq<Byte>)
    ensures Lookup(Stored(rs, guid, data), guid) == Some(data)
       <==> Count(rs, guid) <= 1 || Lookup(Removed(rs, guid), guid) == Some(data)
    ensures other != guid ==> Lookup(Stored(rs, guid, data), other) == Lookup(rs, other)
  {
    var r := Record(guid, data);
    RemovedCounts(rs, guid, guid);
    RemovedCounts(rs, guid, other);
    CountIsLookup(Removed(rs, guid), guid);
    LookupAppend(Removed(rs, guid), [r], guid);
    LookupAppend(Removed(rs, guid), [r], other);
    LookupOne(r, guid);
    LookupOne(r, other);
  }

  /** No GUID occurs twice. */
  ghost predicate Distinct(rs: seq<Record>) {
    forall guid :: Count(rs, guid) <= 1
  }

  /** Lists without double GUIDs stay so. */
  lemma DistinctKept(rs: seq<Record>, guid: seq<Byte>, data: seq<Byte>)
    requires Distinct(rs)
    ensures Distinct(Removed(rs, guid)) && Distinct(Stored(rs, guid, data))
  {
    forall other
      ensures Count(Removed(rs, guid), other) <= 1 && Count(Stored(rs, guid, data), other) <= 1
    {
      RemovedCounts(rs, guid, other);
      RemovedCounts(rs, guid, guid);
      CountAppend(Removed(rs, guid), [Record(guid, data)], other);
      assert [Record(guid, data)][1..] == [];
    }
  }

  /** After Delete the GUID is gone exactly when at most one record had it. */
  lemma RemovedLookup(rs: seq<Record>, guid: seq<Byte>)
    ensures Lookup(Removed(rs, guid), guid).None? <==> Count(rs, guid) <= 1
  {
    RemovedCounts(rs, guid, guid);
    CountIsLookup(Removed(rs, guid), guid);
  }

  // -------- The list as bytes

  lemma Associative(x: seq<Byte>, y: seq<Byte>, z: seq<Byte>)
    ensures x + (y + z) == (x + y) + z
  {
  }

  lemma {:induction false} PackedAppend(a: seq<Record>, b: seq<Record>)
    requires AllFit(a) && AllFit(b)
    ensures AllFit(a + b) && Packed(a + b) == Packed(a) + Packed(b)
  {
    hide Record.Bytes;
    if a == [] {
      assert a + b == b;
    } else {
      assert (a + b)[1..] == a[1..] + b;
      PackedAppend(a[1..], b);
      Associative(a[0].Bytes(), Packed(a[1..]), Packed(b));
    }
  }

  lemma {:induction false} BeginIsLength(rs: seq<Record>, k: nat)
    requires AllFit(rs) && k <= |rs|
    ensures AllFit(rs[..k]) && Begin(rs, k) == |Packed(rs[..k])|
  {
    if k > 0 {
      assert rs[..k][1..] == rs[1..][..k - 1];
      BeginIsLength(rs[1..], k - 1);
    }
  }

  /** Record `k` in the buffer, and the bytes in front of it and behind it. */
  lemma RecordAt(buf: seq<Byte>, rs: seq<Record>, k: nat)
    requires AllFit(rs) && k < |rs| && Holds(buf, 0, Packed(rs))
    ensures AllFit(rs[..k]) && AllFit(rs[k + 1..]) && rs[k].Fits()
    ensures Packed(rs) == Packed(rs[..k]) + (rs[k].Bytes() + Packed(rs[k + 1..]))
    ensures Begin(rs, k) == |Packed(rs[..k])|
    ensures Begin(rs, k + 1) == Begin(rs, k) + RECORD + |rs[k].data| <= |Packed(rs)|
    ensures Holds(buf, Begin(rs, k), rs[k].Bytes())
  {
    hide Holds, Record.Bytes;
    var a, r, b := rs[..k], [rs[k]], rs[k + 1..];
    assert rs == a + (r + b) && rs[..k + 1] == a + r;
    BeginIsLength(rs, k);
    BeginIsLength(rs, k + 1);
    PackedAppend(r, b);
    PackedAppend(a, r + b);
    PackedAppend(a, r);
    assert Packed(r) == rs[k].Bytes() + Packed([]);
    HoldsTwo(buf, 0, Packed(a), rs[k].Bytes() + Packed(b));
    HoldsTwo(buf, Begin(rs, k), rs[k].Bytes(), Packed(b));
  }

  /** The fields of record `r` are read at `at`. */
  predicate ReadsAs(buf: seq<Byte>, at: nat, r: Record) {
    && at + RECORD + |r.data| <= |buf|
    && FromLe(buf[at..at + 4]) == RECORD + |r.data| && FromLe(buf[at + 4..at + 8]) == 0
    && buf[at + 8..at + RECORD] == r.guid && buf[at + RECORD..at + RECORD + |r.data|] == r.data
  }

  lemma RecordFields(buf: seq<Byte>, at: nat, r: Record)
    requires r.Fits() && Holds(buf, at, r.Bytes())
    ensures ReadsAs(buf, at, r) && Holds(buf, at + RECORD, r.data)
  {
    hide Le, FromLe;
    HoldsTwo(buf, at, Le(RECORD + |r.data|, 4) + (Le(0, 4) + r.guid), r.data);
    HoldsTwo(buf, at, Le(RECORD + |r.data|, 4), Le(0, 4) + r.guid);
    HoldsTwo(buf, at + 4, Le(0, 4), r.guid);
    Limits();
    FromLeLe(RECORD + |r.data|, 4);
    FromLeLe(0, 4);
  }

  /** Only the end of the list begins at the end of the bytes. */
  lemma EndOfRecords(rs: seq<Record>, k: nat)
    requires AllFit(rs) && k <= |rs|
    ensures Begin(rs, k) < |Packed(rs)| <==> k < |rs|
    ensures Begin(rs, 0) == 0
  {
    BeginIsLength(rs, k);
    PackedAppend(rs[..k], rs[k..]);
    assert rs == rs[..k] + rs[k..];
  }

  /** What reading record `k` gives. */
  lemma ReadRecord(buf: seq<Byte>, rs: seq<Record>, k: nat)
    requires AllFit(rs) && k < |rs| && Holds(buf, 0, Packed(rs))
    ensures ReadsAs(buf, Begin(rs, k), rs[k])
    ensures Begin(rs, k + 1) == Begin(rs, k) + RECORD + |rs[k].data| <= |Packed(rs)|
  {
    hide Packed, Begin, Record.Bytes, Holds, ReadsAs;
    RecordAt(buf, rs, k);
    RecordFields(buf, Begin(rs, k), rs[k]);
  }

  lemma LastBegins(rs: seq<Record>, r: Record)
    requires AllFit(rs) && r.Fits()
    ensures AllFit(rs + [r]) && Begin(rs + [r], |rs|) == |Packed(rs)|
  {
    BeginIsLength(rs + [r], |rs|);
    assert (rs + [r])[..|rs|] == rs;
  }

  // -------- The validity test

  /** Where a walk over the record lengths from `at` passes the end; None if it meets a header that is too short, not
      reserved, or not in the buffer. */
  function WalkEnd(buf: seq<Byte>, at: nat, end: nat): Option<nat>
    decreases if at < end then end - at else 0
  {
    if at >= end then Some(at)
    else if at + 8 > |buf| then None
    else if FromLe(buf[at..at + 4]) < RECORD || FromLe(buf[at + 4..at + 8]) != 0 then None
    else WalkEnd(buf, at + FromLe(buf[at..at + 4]), end)
  }

  lemma WalkPasses(buf: seq<Byte>, at: nat, end: nat)
    requires at >= end
    ensures WalkEnd(buf, at, end) == Some(at)
  {
  }

  lemma WalkStep(buf: seq<Byte>, at: nat, end: nat)
    requires at < end && at + 8 <= |buf|
    ensures var length := FromLe(buf[at..at + 4]);
      WalkEnd(buf, at, end)
        == if length < RECORD || FromLe(buf[at + 4..at + 8]) != 0 then None else WalkEnd(buf, at + length, end)
  {
    hide FromLe;
  }

  /** The header at `at` is one that the test passes over. */
  predicate GoodHeader(buf: seq<Byte>, at: nat) {
    at + 8 <= |buf| && FromLe(buf[at..at + 4]) >= 24 && FromLe(buf[at + 4..at + 8]) == 0
  }

  predicate HeaderStep(buf: seq<Byte>, end: nat, at: nat, next: nat) {
    at < end && GoodHeader(buf, at) && next == at + FromLe(buf[at..at + 4])
  }

  /** The test goes from header to header: each of them, but the last, is good and leads to the next. */
  ghost predicate HeaderPath(buf: seq<Byte>, end: nat, os: seq<nat>) {
    && os != [] && os[0] == 0
    && forall i {:trigger os[i]} :: 0 <= i < |os| - 1 ==> HeaderStep(buf, end, os[i], os[i + 1])
  }

  lemma HeaderPathStart(buf: seq<Byte>, end: nat)
    ensures HeaderPath(buf, end, [0])
  {
  }

  lemma HeaderPathNext(buf: seq<Byte>, end: nat, os: seq<nat>, next: nat)
    requires HeaderPath(buf, end, os) && HeaderStep(buf, end, os[|os| - 1], next)
    ensures HeaderPath(buf, end, os + [next])
  {
    hide HeaderStep;
  }

  lemma BeginOfAll(rs: seq<Record>)
    requires AllFit(rs)
    ensures Begin(rs, |rs|) == |Packed(rs)|
  {
    BeginIsLength(rs, |rs|);
    assert rs[..|rs|] == rs;
  }

  lemma {:induction false} WalkOfPacked(buf: seq<Byte>, rs: seq<Record>, k: nat)
    requires AllFit(rs) && k <= |rs| && Holds(buf, 0, Packed(rs))
    ensures WalkEnd(buf, Begin(rs, k), |Packed(rs)|) == Some(|Packed(rs)|)
    decreases |rs| - k
  {
    hide Packed, Begin, Holds, FromLe, AllFit;
    EndOfRecords(rs, k);
    if k < |rs| {
      ReadRecord(buf, rs, k);
      WalkOfPacked(buf, rs, k + 1);
    } else {
      BeginOfAll(rs);
    }
  }

  lemma FourParts(buf: seq<Byte>, at: nat, next: nat)
    requires at + RECORD <= next <= |buf|
    ensures buf[at..at + 4] + (buf[at + 4..at + 8] + buf[at + 8..at + RECORD]) + buf[at + RECORD..next] == buf[at..next]
  {
  }

  /** A header that is not too short, not reserved and in the buffer begins a record. */
  lemma RecordFrom(buf: seq<Byte>, at: nat, next: nat)
    requires at + RECORD <= next <= |buf| && next - at < DWORD_LIMIT
    requires FromLe(buf[at..at + 4]) == next - at && FromLe(buf[at + 4..at + 8]) == 0
    ensures var r := Record(buf[at + 8..at + RECORD], buf[at + RECORD..next]); r.Fits() && r.Bytes() == buf[at..next]
  {
    LeFromLe(buf[at..at + 4]);
    LeFromLe(buf[at + 4..at + 8]);
    hide Le, FromLe;
    FourParts(buf, at, next);
  }

  lemma WalkStays(buf: seq<Byte>, at: nat, end: nat)
    requires WalkEnd(buf, at, end) == Some(end)
    ensures at <= end
  {
  }

  /** The records that the walk passes. */
  lemma {:induction false} WalkGivesRecords(buf: seq<Byte>, at: nat, end: nat) returns (rs: seq<Record>)
    requires at <= end <= |buf| && WalkEnd(buf, at, end) == Some(end)
    requires end < DWORD_LIMIT
    ensures AllFit(rs) && Packed(rs) == buf[at..end]
    decreases end - at
  {
    if at == end {
      rs := [];
    } else {
      var next := at + FromLe(buf[at..at + 4]);
      WalkStays(buf, next, end);
      RecordFrom(buf, at, next);
      hide FromLe, Record.Bytes;
      var rest := WalkGivesRecords(buf, next, end);
      var r := Record(buf[at + 8..at + RECORD], buf[at + RECORD..next]);
      rs := [r] + rest;
      assert rs[0] == r && rs[1..] == rest;
      assert buf[at..next] + buf[next..end] == buf[at..end];
    }
  }

  /** The walk ends exactly at the end if and only if the bytes are a list of records.  The test itself does not ask
      where the walk ends: it also accepts a last record that reaches too far. */
  lemma ValidIff(buf: seq<Byte>, end: nat)
    requires end <= |buf| && end < DWORD_LIMIT
    ensures WalkEnd(buf, 0, end) == Some(end) <==> exists rs :: AllFit(rs) && Packed(rs) == buf[..end]
  {
    if WalkEnd(buf, 0, end) == Some(end) {
      var rs := WalkGivesRecords(buf, 0, end);
      assert AllFit(rs) && Packed(rs) == buf[..end];
    }
    if rs :| AllFit(rs) && Packed(rs) == buf[..end] {
      WalkOfPacked(buf, rs, 0);
    }
  }

  // -------- The edits of the bytes

  lemma RoundedUp(n: nat)
    ensures QuadAlign(n) >= n
  {
  }

  lemma PackedOne(r: Record)
    requires r.Fits()
    ensures Packed([r]) == r.Bytes()
  {
    hide Record.Bytes;
    assert Packed([r]) == r.Bytes() + Packed([]);
  }

  lemma StoredKeepsPacked(was: seq<Byte>, now: seq<Byte>, rs: seq<Record>, r: Record)
    requires AllFit(rs) && r.Fits() && Holds(was, 0, Packed(rs))
    requires Agree(was, now, 0, |Packed(rs)|) && Holds(now, |Packed(rs)|, r.Bytes())
    ensures AllFit(rs + [r]) && Packed(rs + [r]) == Packed(rs) + r.Bytes() && Holds(now, 0, Packed(rs + [r]))
  {
    hide Record.Bytes, Packed, Holds, Agree;
    PackedAppend(rs, [r]);
    PackedOne(r);
    HoldsSame(was, now, 0, |Packed(rs)|, 0, Packed(rs));
    HoldsTwo(now, 0, Packed(rs), r.Bytes());
  }

  lemma CutOut(was: seq<Byte>, a: seq<Byte>, r: seq<Byte>, b: seq<Byte>)
    requires Holds(was, 0, a + (r + b))
    ensures |a + (r + b)| <= |was| && was[|a| + |r|..|a| + |r| + |b|] == b
    ensures Holds(Splice(was, |a|, b), 0, a + b)
  {
    HoldsTwo(was, 0, a, r + b);
    HoldsTwo(was, |a|, r, b);
    hide Splice;
    SpliceStores(was, |a|, b);
    HoldsSame(was, Splice(was, |a|, b), 0, |a|, 0, a);
    HoldsTwo(Splice(was, |a|, b), 0, a, b);
  }

  lemma DeleteKeepsPacked(was: seq<Byte>, rs: seq<Record>, k: nat)
    requires AllFit(rs) && k < |rs| && Holds(was, 0, Packed(rs))
    ensures var found, rest, size := Begin(rs, k), Begin(rs, k + 1), |Packed(rs)|;
      found <= rest <= size <= |was| && AllFit(rs[..k] + rs[k + 1..])
      && |Packed(rs[..k] + rs[k + 1..])| == size - (rest - found)
      && Holds(Splice(was, found, was[rest..size]), 0, Packed(rs[..k] + rs[k + 1..]))
  {
    hide Record.Bytes, Begin, Packed, AllFit, Holds, Splice;
    RecordAt(was, rs, k);
    PackedAppend(rs[..k], rs[k + 1..]);
    CutOut(was, Packed(rs[..k]), rs[k].Bytes(), Packed(rs[k + 1..]));
  }

  // -------- The search on any bytes

  /** Where Find looks next, or what it found; a place of -1 stands for the null pointer. */
  datatype Search = Looking(at: nat) | Ended(place: int, cb: nat)

  /** The bytes of the buffer, and zeros behind it: for a header that reaches over the end. */
  function Extended(buf: seq<Byte>): (b: seq<Byte>)
    ensures |b| == |buf| + RECORD && b[..|buf|] == buf
  {
    buf + Zeros(RECORD)
  }

  function LengthAt(buf: seq<Byte>, at: nat): nat
    requires at < |buf|
  {
    FromLe(Extended(buf)[at..at + 4])
  }

  /** A record of the GUID begins at `at`. */
  predicate Matches(buf: seq<Byte>, guid: seq<Byte>, at: nat)
    requires at < |buf|
  {
    LengthAt(buf, at) >= RECORD && Extended(buf)[at + 8..at + RECORD] == guid
  }

  /** One turn of the loop over the first `size` bytes.  A record that is too long ends it, and one that is too short is
      passed over. */
  function Turn(buf: seq<Byte>, size: nat, guid: seq<Byte>, s: Search): Search
    requires size <= |buf|
  {
    if s.Ended? then s
    else if s.at >= size || LengthAt(buf, s.at) > size then Ended(-1, 0)
    else if Matches(buf, guid, s.at) then Ended(s.at + RECORD, LengthAt(buf, s.at) - RECORD)
    else Looking(s.at + LengthAt(buf, s.at))
  }

  function Turns(buf: seq<Byte>, size: nat, guid: seq<Byte>, s: Search, n: nat): Search
    requires size <= |buf|
  {
    if n == 0 then s else Turn(buf, size, guid, Turns(buf, size, guid, s, n - 1))
  }

  /** From `at` on the search meets a record of length zero before it ends. */
  predicate MeetsEmpty(buf: seq<Byte>, size: nat, guid: seq<Byte>, at: nat)
    requires size <= |buf|
    decreases if at < size then size - at else 0
  {
    at < size && (LengthAt(buf, at) == 0 ||
                  (LengthAt(buf, at) <= size && !Matches(buf, guid, at) &&
                   MeetsEmpty(buf, size, guid, at + LengthAt(buf, at))))
  }

  /** The search passes over the header at `at`: it is not too long, and too short or that of another GUID. */
  predicate Passed(buf: seq<Byte>, size: nat, guid: seq<Byte>, at: nat) {
    && at + 24 <= |buf|
    && var length := FromLe(buf[at..at + 4]);
       0 < length <= size && (length < 24 || buf[at + 8..at + 24] != guid)
  }

  predicate SearchStep(buf: seq<Byte>, size: nat, guid: seq<Byte>, at: nat, next: nat) {
    at < size && Passed(buf, size, guid, at) && next == at + FromLe(buf[at..at + 4])
  }

  /** The search goes from header to header. */
  ghost predicate SearchPath(buf: seq<Byte>, size: nat, guid: seq<Byte>, os: seq<nat>) {
    && os != [] && os[0] == 0
    && forall i {:trigger os[i]} :: 0 <= i < |os| - 1 ==> SearchStep(buf, size, guid, os[i], os[i + 1])
  }

  /** The search ends at the last header of the path: behind the records, at one that is too long, or at a match. */
  ghost predicate SearchEnds(buf: seq<Byte>, size: nat, guid: seq<Byte>, at: nat, place: int, cb: nat) {
    if at >= size then place == -1 && cb == 0
    else
      && at + 24 <= |buf|
      && var length := FromLe(buf[at..at + 4]);
         if length > size then place == -1 && cb == 0
         else length >= 24 && buf[at + 8..at + 24] == guid && place == at + 24 && cb == length - 24
  }

  /** A search along some path gives this result. */
  ghost predicate SearchGives(buf: seq<Byte>, size: nat, guid: seq<Byte>, place: int, cb: nat) {
    exists os :: SearchPath(buf, size, guid, os) && SearchEnds(buf, size, guid, os[|os| - 1], place, cb)
  }

  lemma SearchPathStart(buf: seq<Byte>, size: nat, guid: seq<Byte>)
    ensures SearchPath(buf, size, guid, [0])
  {
  }

  lemma SearchPathNext(buf: seq<Byte>, size: nat, guid: seq<Byte>, os: seq<nat>, next: nat)
    requires SearchPath(buf, size, guid, os) && SearchStep(buf, size, guid, os[|os| - 1], next)
    ensures SearchPath(buf, size, guid, os + [next])
  {
    hide SearchStep;
  }

  /** Where a path ends the search. */
  lemma SearchEndsHere(buf: seq<Byte>, size: nat, guid: seq<Byte>, os: seq<nat>, at: nat)
    requires SearchPath(buf, size, guid, os) && os != [] && os[|os| - 1] == at && (at < size ==> at + RECORD <= |buf|)
    ensures at >= size ==> SearchGives(buf, size, guid, -1, 0)
    ensures at < size ==>
      var length := FromLe(buf[at..at + 4]);
      && (length > size ==> SearchGives(buf, size, guid, -1, 0))
      && (RECORD <= length <= size && buf[at + 8..at + RECORD] == guid ==>
            SearchGives(buf, size, guid, at + RECORD, length - RECORD))
  {
    hide SearchPath, FromLe;
    if at >= size {
      assert SearchEnds(buf, size, guid, os[|os| - 1], -1, 0);
    } else {
      var length := FromLe(buf[at..at + 4]);
      if length > size {
        assert SearchEnds(buf, size, guid, os[|os| - 1], -1, 0);
      } else if length >= RECORD && buf[at + 8..at + RECORD] == guid {
        assert SearchEnds(buf, size, guid, os[|os| - 1], at + RECORD, length - RECORD);
      }
    }
  }

  lemma {:induction false} TurnsFirst(buf: seq<Byte>, size: nat, guid: seq<Byte>, s: Search, n: nat)
    requires size <= |buf|
    ensures Turns(buf, size, guid, s, n + 1) == Turns(buf, size, guid, Turn(buf, size, guid, s), n)
  {
    hide Turn;
    if n > 0 {
      TurnsFirst(buf, size, guid, s, n - 1);
    }
  }

  lemma {:induction false} EmptyStays(buf: seq<Byte>, size: nat, guid: seq<Byte>, at: nat, n: nat)
    requires at < size <= |buf| && LengthAt(buf, at) == 0
    ensures Turns(buf, size, guid, Looking(at), n) == Looking(at)
  {
    hide LengthAt;
    if n > 0 {
      EmptyStays(buf, size, guid, at, n - 1);
    }
  }

  lemma {:induction false} EndsUnlessEmpty(buf: seq<Byte>, size: nat, guid: seq<Byte>, at: nat) returns (n: nat)
    requires size <= |buf| && !MeetsEmpty(buf, size, guid, at)
    ensures Turns(buf, size, guid, Looking(at), n).Ended?
    decreases if at < size then size - at else 0
  {
    hide LengthAt, Matches;
    var next := Turn(buf, size, guid, Looking(at));
    if next.Ended? {
      n := 1;
      TurnsFirst(buf, size, guid, Looking(at), 0);
    } else {
      n := EndsUnlessEmpty(buf, size, guid, next.at);
      TurnsFirst(buf, size, guid, Looking(at), n);
      n := n + 1;
    }
  }

  lemma {:induction false} EmptyNeverEnds(buf: seq<Byte>, size: nat, guid: seq<Byte>, at: nat, n: nat)
    requires size <= |buf| && MeetsEmpty(buf, size, guid, at)
    ensures Turns(buf, size, guid, Looking(at), n).Looking?
    decreases if at < size then size - at else 0
  {
    hide LengthAt, Matches;
    if LengthAt(buf, at) == 0 {
      EmptyStays(buf, size, guid, at, n);
    } else if n > 0 {
      EmptyNeverEnds(buf, size, guid, at + LengthAt(buf, at), n - 1);
      TurnsFirst(buf, size, guid, Looking(at), n - 1);
    }
  }

  /** On any bytes the search ends if and only if it meets no record of length zero. */
  lemma FindEndsIff(buf: seq<Byte>, size: nat, guid: seq<Byte>)
    requires size <= |buf|
    ensures (exists n :: Turns(buf, size, guid, Looking(0), n).Ended?) <==> !MeetsEmpty(buf, size, guid, 0)
  {
    hide Turns, MeetsEmpty;
    if MeetsEmpty(buf, size, guid, 0) {
      forall n ensures !Turns(buf, size, guid, Looking(0), n).Ended? {
        EmptyNeverEnds(buf, size, guid, 0, n);
      }
    } else {
      var n := EndsUnlessEmpty(buf, size, guid, 0);
    }
  }

  /** A header inside the buffer. */
  lemma LengthInside(buf: seq<Byte>, guid: seq<Byte>, at: nat)
    requires at + RECORD <= |buf|
    ensures LengthAt(buf, at) == FromLe(buf[at..at + 4])
    ensures Matches(buf, guid, at) <==> FromLe(buf[at..at + 4]) >= RECORD && buf[at + 8..at + RECORD] == guid
  {
    assert Extended(buf)[at..at + 4] == buf[at..at + 4];
    assert Extended(buf)[at + 8..at + RECORD] == buf[at + 8..at + RECORD];
  }

  lemma MeetsNext(buf: seq<Byte>, size: nat, guid: seq<Byte>, at: nat)
    requires at < size <= |buf| && !MeetsEmpty(buf, size, guid, at)
    ensures LengthAt(buf, at) > 0
    ensures LengthAt(buf, at) <= size && !Matches(buf, guid, at) ==>
            !MeetsEmpty(buf, size, guid, at + LengthAt(buf, at))
  {
    hide LengthAt, Matches;
  }

  /** One turn of the loop, by the fields of a header inside the buffer. */
  lemma FindTurn(buf: seq<Byte>, size: nat, guid: seq<Byte>, at: nat, n: nat)
    requires at < size <= |buf| && at + RECORD <= |buf| && !MeetsEmpty(buf, size, guid, at)
    requires Turns(buf, size, guid, Looking(0), n) == Looking(at)
    ensures var cb := FromLe(buf[at..at + 4]);
      var next := Turns(buf, size, guid, Looking(0), n + 1);
      if cb > size then next == Ended(-1, 0)
      else if cb >= RECORD && buf[at + 8..at + RECORD] == guid then next == Ended(at + RECORD, cb - RECORD)
      else next == Looking(at + cb) && cb > 0 && !MeetsEmpty(buf, size, guid, at + cb)
  {
    LengthInside(buf, guid, at);
    MeetsNext(buf, size, guid, at);
    hide MeetsEmpty, LengthAt, Matches, FromLe;
  }

  lemma FindPasses(buf: seq<Byte>, size: nat, guid: seq<Byte>, at: nat, n: nat)
    requires size <= |buf| && size <= at && Turns(buf, size, guid, Looking(0), n) == Looking(at)
    ensures Turns(buf, size, guid, Looking(0), n + 1) == Ended(-1, 0)
  {
    hide LengthAt, Matches;
  }

  /** A list of records has no record of length zero. */
  lemma {:induction false} RecordsMeetNoEmpty(buf: seq<Byte>, rs: seq<Record>, guid: seq<Byte>, k: nat)
    requires AllFit(rs) && k <= |rs| && Holds(buf, 0, Packed(rs))
    ensures !MeetsEmpty(buf, |Packed(rs)|, guid, Begin(rs, k))
    decreases |rs| - k
  {
    hide Packed, Begin, Holds, FromLe, AllFit, LengthAt, Matches;
    EndOfRecords(rs, k);
    if k < |rs| {
      ReadRecord(buf, rs, k);
      LengthInside(buf, guid, Begin(rs, k));
      RecordsMeetNoEmpty(buf, rs, guid, k + 1);
    }
  }

  // -------- The object

  /** What Set stores: the data, or zeros for a null pointer, and the zeros that round it up to eight bytes. */
  function Given(pbData: Option<seq<Byte>>, cb: nat): (r: seq<Byte>)
    requires pbData.Some? ==> |pbData.value| == cb
    ensures |r| == QuadAlign(cb)
  {
    (if pbData.Some? then pbData.value else Zeros(cb)) + Zeros(QuadAlign(cb) - cb)
  }

  lemma GivenBytes(pbData: Option<seq<Byte>>, cb: nat)
    requires pbData.Some? ==> |pbData.value| == cb
    ensures pbData.Some? ==> Given(pbData, cb)[..cb] == pbData.value
    ensures forall j :: (if pbData.Some? then cb else 0) <= j < QuadAlign(cb) ==> Given(pbData, cb)[j] == 0
  {
  }

  /** The bytes of the record that was stored, as they stand in the buffer. */
  lemma SetBytes(buf: seq<Byte>, at: nat, r: Record, pbData: Option<seq<Byte>>, cb: nat)
    requires pbData.Some? ==> |pbData.value| == cb
    requires at >= RECORD && ReadsAs(buf, at - RECORD, r) && r.data == Given(pbData, cb)
    ensures var end := at + QuadAlign(cb);
      && end <= |buf| && buf[at..end] == r.data
      && (pbData.Some? ==> buf[at..at + cb] == pbData.value)
      && (forall j :: (if pbData.Some? then at + cb else at) <= j < end ==> buf[j] == 0)
      && FromLe(buf[at - 24..at - 20]) == 24 + QuadAlign(cb) && FromLe(buf[at - 20..at - 16]) == 0
      && buf[at - 16..at] == r.guid
  {
    GivenBytes(pbData, cb);
    hide QuadAlign, Given, FromLe;
    var end := at + QuadAlign(cb);
    assert buf[at..at + cb] == buf[at..end][..cb];
    forall j | (if pbData.Some? then at + cb else at) <= j < end ensures buf[j] == 0 {
      assert buf[j] == buf[at..end][j - at];
    }
  }

  lemma NoneLeft(rs: seq<Record>, guid: seq<Byte>)
    requires forall i, j :: 0 <= i < j < |rs| && rs[i].guid == guid ==> rs[j].guid != guid
    ensures forall i :: 0 <= i < |Removed(rs, guid)| ==> Removed(rs, guid)[i].guid != guid
  {
    var m, kept := Index(rs, guid), Removed(rs, guid);
    forall i | 0 <= i < |kept| ensures kept[i].guid != guid {
      assert kept[i] == if i < m then rs[i] else rs[i + 1];
    }
  }

  /** Find after Set, for a GUID of one record at most: `now` is the list that Set leaves, and `at` where it put the
      payload; the first record of the GUID, which Find gives, is there, and has exactly those bytes. */
  lemma FindAfterSet(rs: seq<Record>, now: seq<Record>, guid: seq<Byte>, buf: seq<Byte>, at: nat, end: nat)
    requires now != [] && at <= end <= |buf| && AllFit(now)
    requires now == Removed(rs, guid) + [Record(guid, buf[at..end])] && at == Begin(now, |now| - 1) + 24
    requires forall i, j :: 0 <= i < j < |rs| && rs[i].guid == guid ==> rs[j].guid != guid
    ensures var k := Index(now, guid);
      k < |now| && Begin(now, k) + 24 == at && now[k].data == buf[at..end]
  {
    hide Begin, AllFit, Removed, Index;
    NoneLeft(rs, guid);
    assert now[|now| - 1].guid == guid;
    assert forall i :: 0 <= i < |now| - 1 ==> now[i] == Removed(rs, guid)[i];
  }

  class CImageData {
    var data: array<Byte>
    var cbData: nat
    var cbAlloc: nat
    ghost var records: seq<Record>

    /** The buffer begins with the records, and is the file's own memory or one allocated here. */
    ghost predicate Valid()
      reads this, data
    {
      cbData <= data.Length && (cbAlloc == 0 || cbAlloc == data.Length)
      && AllFit(records) && cbData == |Packed(records)| && Holds(data[..], 0, Packed(records))
    }

    /** On the payloads found in an image. */
    constructor (data: array<Byte>, cbData: nat, ghost records: seq<Record>)
      requires cbData <= data.Length && AllFit(records)
      requires cbData == |Packed(records)| && Holds(data[..], 0, Packed(records))
      ensures Valid() && this.records == records
    {
      this.data, this.cbData, this.cbAlloc, this.records := data, cbData, 0, records;
    }

    method SizeTo(size: nat)
      requires Valid() && cbData <= size
      modifies this`data, this`cbAlloc
      ensures Valid() && (data == old(data) || fresh(data))
      ensures size <= cbAlloc
    {
      if size <= cbAlloc {
        return;
      }
      var buffer := new Byte[size](k => 0);
      Store(buffer, 0, data[..cbData]);
      SpliceStores(buffer[..], 0, data[..cbData]);
      data, cbAlloc := buffer, size;
    }

    method Purge()
      requires Valid()
      modifies this`cbData, this`records
      ensures Valid() && records == []
    {
      cbData, records := 0, [];
    }

    /** The header at a place the walk reaches is readable. */
    lemma WalkReads(at: nat)
      requires at < cbData && (Valid() || cbData + 8 <= data.Length)
      requires WalkEnd(data[..], 0, cbData) == WalkEnd(data[..], at, cbData)
      ensures at + 8 <= data.Length
    {
      if Valid() {
        WalkOfPacked(data[..], records, 0);
      }
    }

    /** Walks over the record lengths.  The headers it looks at have to be readable. */
    method IsValid() returns (ok: bool)
      requires Valid() || cbData + 8 <= data.Length
      ensures ok <==> WalkEnd(data[..], 0, cbData).Some?
      ensures exists os ::
                && HeaderPath(data[..], cbData, os)
                && var at := os[|os| - 1];
                   if ok then at >= cbData else at < cbData && !GoodHeader(data[..], at)
    {
      hide Packed, Holds, Begin, FromLe, AllFit, WalkEnd, Valid, HeaderPath;
      var at := 0;
      ghost var os: seq<nat> := [0];
      HeaderPathStart(data[..], cbData);
      while at < cbData
        invariant WalkEnd(data[..], 0, cbData) == WalkEnd(data[..], at, cbData)
        invariant os != [] && os[|os| - 1] == at && HeaderPath(data[..], cbData, os)
        decreases if at < cbData then cbData - at else 0
      {
        WalkReads(at);
        WalkStep(data[..], at, cbData);
        assert data[..][at..at + 4] == data[at..at + 4] && data[..][at + 4..at + 8] == data[at + 4..at + 8];
        var cbBytes := FromLe(data[at..at + 4]);
        if cbBytes < RECORD || FromLe(data[at + 4..at + 8]) != 0 {
          return false;
        }
        HeaderPathNext(data[..], cbData, os, at + cbBytes);
        at := at + cbBytes;
        os := os + [at];
      }
      WalkPasses(data[..], at, cbData);
      return true;
    }

    /** The first record of a GUID: where its data begin, and their length; -1 stands for the null pointer.  On other
        bytes it needs readable headers, none of length zero, and offsets of which two together have 32 bits. */
    method Find(guid: seq<Byte>) returns (at: int, cb: nat)
      requires |guid| == GUID
      requires Valid() || (cbData + RECORD <= data.Length && cbData <= DWORD_LIMIT / 2
                           && !MeetsEmpty(data[..], cbData, guid, 0))
      ensures exists n :: Turns(data[..], cbData, guid, Looking(0), n) == Ended(at, cb)
      ensures SearchGives(data[..], cbData, guid, at, cb)
      ensures Valid() ==>
        var k := Index(records, guid);
        if k < |records| then
          at == Begin(records, k) + 24 && at + cb <= cbData && data[at..at + cb] == records[k].data
        else at == -1 && cb == 0
    {
      hide Packed, Holds, Begin, Index, FromLe, AllFit, MeetsEmpty, Turn, LengthAt, Matches, SearchPath, SearchEnds;
      hide SearchGives;
      SearchPathStart(data[..], cbData, guid);
      ghost var os: seq<nat> := [0];
      if Valid() {
        EndOfRecords(records, 0);
        RecordsMeetNoEmpty(data[..], records, guid, 0);
      }
      var offset := 0;
      ghost var k, n := 0, 0;
      while offset < cbData
        invariant Valid() ==> k <= Index(records, guid) && offset == Begin(records, k) <= cbData
        invariant Turns(data[..], cbData, guid, Looking(0), n) == Looking(offset)
        invariant !MeetsEmpty(data[..], cbData, guid, offset)
        invariant os != [] && os[|os| - 1] == offset && SearchPath(data[..], cbData, guid, os)
        decreases cbData - offset
      {
        if Valid() {
          EndOfRecords(records, k);
          ReadRecord(data[..], records, k);
        }
        FindTurn(data[..], cbData, guid, offset, n);
        assert data[..][offset..offset + 4] == data[offset..offset + 4];
        assert data[..][offset + 8..offset + RECORD] == data[offset + 8..offset + RECORD];
        n := n + 1;
        var cbBytes := FromLe(data[offset..offset + 4]);
        SearchEndsHere(data[..], cbData, guid, os, offset);
        if cbBytes > cbData {
          return -1, 0;
        }
        if cbBytes >= RECORD && data[offset + 8..offset + RECORD] == guid {
          if Valid() {
            assert data[..][offset + RECORD..offset + cbBytes] == data[offset + RECORD..offset + cbBytes];
          }
          return offset + RECORD, cbBytes - RECORD;
        }
        SearchPathNext(data[..], cbData, guid, os, offset + cbBytes);
        offset, k := offset + cbBytes, k + 1;
        os := os + [offset];
      }
      if Valid() {
        EndOfRecords(records, k);
      }
      FindPasses(data[..], cbData, guid, offset, n);
      SearchEndsHere(data[..], cbData, guid, os, offset);
      return -1, 0;
    }

    /** The record at the iterator, and the iterator moved to the next one; nothing at the end. */
    method Enumerate(nIterator: nat, ghost k: nat) returns (at: int, guid: seq<Byte>, cb: nat, next: nat)
      requires Valid() && k <= |records| && nIterator == Begin(records, k)
      ensures if k < |records| then
                at == nIterator + RECORD && at + cb <= cbData
                && Record(guid, data[at..at + cb]) == records[k] && next == Begin(records, k + 1)
              else at == -1 && cb == 0 && next == nIterator
    {
      hide Packed, Begin, Holds, FromLe, AllFit;
      EndOfRecords(records, k);
      if k < |records| {
        ReadRecord(data[..], records, k);
        assert data[..][nIterator..nIterator + 4] == data[nIterator..nIterator + 4];
        assert data[..][nIterator + 8..nIterator + RECORD] == data[nIterator + 8..nIterator + RECORD];
      }
      if cbData < nIterator + RECORD {
        return -1, seq(GUID, _ => 0), 0, nIterator;
      }
      guid := data[nIterator + 8..nIterator + RECORD];
      cb := FromLe(data[nIterator..nIterator + 4]) - RECORD;
      return nIterator + RECORD, guid, cb, nIterator + RECORD + cb;
    }

    /** The rest of the buffer moves over the record. */
    method Delete(guid: seq<Byte>) returns (ok: bool)
      requires Valid() && |guid| == GUID
      modifies this`cbData, this`records, data
      ensures Valid() && cbData <= old(cbData)
      ensures var k := Index(old(records), guid);
        && ok == (k < |old(records)|)
        && records == if ok then old(records)[..k] + old(records)[k + 1..] else old(records)
    {
      hide Packed, Begin, Index, AllFit, Splice, Holds, SearchGives, Turns, Record.Bytes, ReadsAs, FromLe;
      var at, cb := Find(guid);
      if at < 0 {
        return false;
      }
      ghost var k, was := Index(records, guid), data[..];
      ReadRecord(was, records, k);
      DeleteKeepsPacked(was, records, k);
      var found, rest := at - RECORD, at + cb;
      Move(data, found, rest, cbData - rest);
      cbData := cbData - (cb + RECORD);
      records := records[..k] + records[k + 1..];
      return true;
    }

    /** Writes a record; a null pointer gives zeros. */
    method WriteRecord(at: nat, guid: seq<Byte>, pbData: Option<seq<Byte>>, cb: nat)
      requires |guid| == GUID && RECORD + QuadAlign(cb) < DWORD_LIMIT && (pbData.Some? ==> |pbData.value| == cb)
      requires at + RECORD + QuadAlign(cb) <= data.Length
      modifies data
      ensures data[..] == Splice(old(data[..]), at, Record(guid, Given(pbData, cb)).Bytes())
    {
      RoundedUp(cb);
      hide Le, Splice, QuadAlign, Zeros;
      var alloc := QuadAlign(cb);
      ghost var was := data[..];
      var head := Le(RECORD + alloc, 4) + (Le(0, 4) + guid);
      Store(data, at, head);
      ghost var buf := data[..];
      if pbData.Some? {
        Store(data, at + RECORD, pbData.value);
        Store(data, at + RECORD + cb, Zeros(alloc - cb));
        StoredTwice(buf, at + RECORD, pbData.value, Zeros(alloc - cb));
      } else {
        Store(data, at + RECORD, Zeros(alloc));
        ZerosAppend(cb, alloc - cb);
      }
      StoredTwice(was, at, head, Given(pbData, cb));
    }

    /** The second half of Set: a record behind the last one. */
    method Append(guid: seq<Byte>, pbData: Option<seq<Byte>>, cb: nat) returns (at: nat)
      requires Valid() && |guid| == GUID && (pbData.Some? ==> |pbData.value| == cb)
      requires RECORD + QuadAlign(cb) < DWORD_LIMIT && cbData + QuadAlign(cb) + RECORD <= data.Length
      modifies this`cbData, this`records, data
      ensures Valid() && at == old(cbData) + RECORD && cbData == at + QuadAlign(cb)
      ensures at == Begin(records, |records| - 1) + RECORD
      ensures ReadsAs(data[..], at - RECORD, Record(guid, Given(pbData, cb)))
      ensures records == old(records) + [Record(guid, Given(pbData, cb))]
    {
      hide Packed, Record.Bytes, Splice, Given, QuadAlign, Holds, AllFit, Agree, ReadsAs, Le, FromLe;
      ghost var r, was := Record(guid, Given(pbData, cb)), data[..];
      WriteRecord(cbData, guid, pbData, cb);
      SpliceStores(was, cbData, r.Bytes());
      StoredKeepsPacked(was, data[..], records, r);
      RecordFields(data[..], cbData, r);
      at := cbData + RECORD;
      LastBegins(records, r);
      records := records + [r];
      cbData := cbData + QuadAlign(cb) + RECORD;
    }

    /** The GUID gets new data, at the end of the list: the given bytes, or none for a null pointer, and zeros up to a
        multiple of eight. */
    method Set(guid: seq<Byte>, pbData: Option<seq<Byte>>, cb: nat) returns (at: nat)
      requires Valid() && |guid| == GUID && (pbData.Some? ==> |pbData.value| == cb)
      requires cbData + QuadAlign(cb) + RECORD < DWORD_LIMIT
      modifies this, data
      ensures Valid() && (data == old(data) || fresh(data))
      ensures at >= 24 && cb <= cbData - at < cb + 8 && (cbData - at) % 8 == 0 && cbData <= data.Length
      ensures pbData.Some? ==> data[at..at + cb] == pbData.value
      ensures forall j :: (if pbData.Some? then at + cb else at) <= j < cbData ==> data[j] == 0
      ensures FromLe(data[at - 24..at - 20]) == 24 + (cbData - at) && FromLe(data[at - 20..at - 16]) == 0
      ensures data[at - 16..at] == guid
      ensures records == Removed(old(records), guid) + [Record(guid, data[at..cbData])]
      ensures at == Begin(records, |records| - 1) + 24
    {
      hide Packed, Record.Bytes, Given, QuadAlign, Holds, AllFit, ReadsAs, Le, FromLe, Index;
      var deleted := Delete(guid);
      SizeTo(cbData + QuadAlign(cb) + RECORD);
      at := Append(guid, pbData, cb);
      SetBytes(data[..], at, Record(guid, Given(pbData, cb)), pbData, cb);
      assert data[at..at + cb] == data[..][at..at + cb] && data[at..cbData] == data[..][at..cbData];
      assert data[at - 24..at - 20] == data[..][at - 24..at - 20];
      assert data[at - 20..at - 16] == data[..][at - 20..at - 16];
      assert data[at - 16..at] == data[..][at - 16..at];
    }
  }
}
