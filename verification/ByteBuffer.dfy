/** Byte buffers as the Detours sources use them: little-endian numbers, stores and moves. */
module ByteBuffer {
  type Byte = x: int | 0 <= x < 256

  const DWORD_LIMIT: nat := 0x1_0000_0000

  // -------- Little-endian numbers

  function Le(n: nat, k: nat): (b: seq<Byte>)
    ensures |b| == k
  {
    if k == 0 then [] else [n % 256] + Le(n / 256, k - 1)
  }

  function FromLe(b: seq<Byte>): nat {
    if b == [] then 0 else b[0] + 256 * FromLe(b[1..])
  }

  function Limit(k: nat): nat {
    if k == 0 then 1 else 256 * Limit(k - 1)
  }

  lemma {:induction false} FromLeLe(n: nat, k: nat)
    requires n < Limit(k)
    ensures FromLe(Le(n, k)) == n
  {
    if k > 0 {
      FromLeLe(n / 256, k - 1);
    }
  }

  lemma {:induction false} LeFromLe(b: seq<Byte>)
    ensures Le(FromLe(b), |b|) == b
  {
    if b != [] {
      LeFromLe(b[1..]);
      assert FromLe(b) % 256 == b[0] && FromLe(b) / 256 == FromLe(b[1..]);
      assert [b[0]] + b[1..] == b;
      hide FromLe;
    }
  }

  lemma Limits()
    ensures Limit(2) == 0x1_0000 && Limit(4) == DWORD_LIMIT && Limit(8) == DWORD_LIMIT * DWORD_LIMIT
  {
    assert Limit(2) == 256 * Limit(1);
    assert Limit(4) == 256 * Limit(3) == 256 * (256 * Limit(2));
    assert Limit(6) == 256 * Limit(5) == 256 * (256 * Limit(4));
    assert Limit(8) == 256 * Limit(7) == 256 * (256 * Limit(6));
  }

  lemma FromOneByte(b: seq<Byte>)
    requires |b| == 1
    ensures FromLe(b) == b[0]
  {
    assert b[1..] == [];
  }

  lemma {:induction false} FromLeSplit(b: seq<Byte>, k: nat)
    requires k <= |b|
    ensures FromLe(b) == FromLe(b[..k]) + Limit(k) * FromLe(b[k..])
  {
    if k == 0 {
      assert b[0..] == b;
    } else {
      FromLeSplit(b[1..], k - 1);
      assert b[1..][..k - 1] == b[..k][1..] && b[1..][k - 1..] == b[k..];
      assert Limit(k) * FromLe(b[k..]) == 256 * (Limit(k - 1) * FromLe(b[k..]));
    }
  }

  /** The lowest byte comes first. */
  lemma LowestFirst(b: seq<Byte>)
    ensures |b| == 2 ==> FromLe(b) == b[0] as int + 0x100 * (b[1] as int)
    ensures |b| == 4 ==>
              FromLe(b) == b[0] as int + 0x100 * (b[1] as int) + 0x1_0000 * (b[2] as int) + 0x100_0000 * (b[3] as int)
    ensures |b| == 8 ==> FromLe(b) == FromLe(b[..4]) + 0x1_0000_0000 * FromLe(b[4..])
  {
    Limits();
    if |b| == 2 {
      FromOneByte(b[1..]);
    } else if |b| == 4 {
      FromOneByte(b[1..][1..][1..]);
    } else if |b| == 8 {
      FromLeSplit(b, 4);
    }
  }

  // -------- Storing into a buffer

  function Splice(buf: seq<Byte>, at: nat, b: seq<Byte>): (r: seq<Byte>)
    requires at + |b| <= |buf|
    ensures |r| == |buf|
  {
    buf[..at] + b + buf[at + |b|..]
  }

  predicate Holds(buf: seq<Byte>, at: nat, b: seq<Byte>) {
    at + |b| <= |buf| && buf[at..at + |b|] == b
  }

  lemma HoldsAt(buf: seq<Byte>, at: nat, b: seq<Byte>)
    requires at + |b| <= |buf|
    ensures Holds(buf, at, b) <==> forall k {:trigger b[k]} :: 0 <= k < |b| ==> buf[at + k] == b[k]
  {
    if forall k {:trigger b[k]} :: 0 <= k < |b| ==> buf[at + k] == b[k] {
      assert forall k :: 0 <= k < |b| ==> buf[at..at + |b|][k] == b[k];
    }
    if Holds(buf, at, b) {
      assert forall k {:trigger b[k]} :: 0 <= k < |b| ==> buf[at..at + |b|][k] == buf[at + k];
    }
  }

  lemma HoldsTwo(buf: seq<Byte>, at: nat, a: seq<Byte>, b: seq<Byte>)
    ensures Holds(buf, at, a + b) <==> Holds(buf, at, a) && Holds(buf, at + |a|, b)
  {
    if at + |a| + |b| <= |buf| {
      assert buf[at..at + |a + b|] == buf[at..at + |a|] + buf[at + |a|..at + |a| + |b|];
      if Holds(buf, at, a + b) {
        assert (a + b)[..|a|] == a && (a + b)[|a|..] == b;
      }
    }
  }

  /** The buffers agree from `lo` up to `hi`. */
  predicate Agree(was: seq<Byte>, now: seq<Byte>, lo: nat, hi: nat) {
    |was| == |now| && hi <= |was| && forall k {:trigger now[k]} :: lo <= k < hi ==> now[k] == was[k]
  }

  lemma HoldsSame(was: seq<Byte>, now: seq<Byte>, lo: nat, hi: nat, at: nat, b: seq<Byte>)
    requires Agree(was, now, lo, hi) && lo <= at && at + |b| <= hi
    ensures Holds(now, at, b) == Holds(was, at, b)
  {
    assert now[at..at + |b|] == was[at..at + |b|];
  }

  lemma SpliceStores(buf: seq<Byte>, at: nat, b: seq<Byte>)
    requires at + |b| <= |buf|
    ensures Holds(Splice(buf, at, b), at, b)
    ensures Agree(buf, Splice(buf, at, b), 0, at) && Agree(buf, Splice(buf, at, b), at + |b|, |buf|)
  {
  }

  lemma HoldsAppended(buf: seq<Byte>, at: nat, a: seq<Byte>, b: seq<Byte>)
    requires Holds(buf, at, a) && at + |a| + |b| <= |buf|
    ensures Holds(Splice(buf, at + |a|, b), at, a + b)
  {
    var r := Splice(buf, at + |a|, b);
    SpliceStores(buf, at + |a|, b);
    HoldsSame(buf, r, 0, at + |a|, at, a);
    HoldsTwo(r, at, a, b);
  }

  /** One store right behind another. */
  lemma StoredTwice(buf: seq<Byte>, at: nat, a: seq<Byte>, b: seq<Byte>)
    requires at + |a| + |b| <= |buf|
    ensures Splice(Splice(buf, at, a), at + |a|, b) == Splice(buf, at, a + b)
  {
  }

  /** Numbers of four or eight bytes each. */
  function Words(t: seq<nat>, k: nat): (b: seq<Byte>)
    requires k == 4 || k == 8
    ensures |b| == if k == 4 then 4 * |t| else 8 * |t|
  {
    if t == [] then [] else Le(t[0], k) + Words(t[1..], k)
  }

  /** The least multiple of eight that is not below `a`. */
  function QuadAlign(a: nat): (r: nat)
    ensures r % 8 == 0 && a <= r < a + 8
  {
    (a + 7) / 8 * 8
  }

  /** Copies bytes into the buffer. */
  method Store(buffer: array<Byte>, at: nat, b: seq<Byte>)
    requires at + |b| <= buffer.Length
    modifies buffer
    ensures buffer[..] == Splice(old(buffer[..]), at, b)
  {
    var k := 0;
    while k < |b|
      invariant k <= |b|
      invariant buffer[..] == Splice(old(buffer[..]), at, b[..k])
    {
      buffer[at + k] := b[k];
      k := k + 1;
    }
    assert b[..|b|] == b;
  }

  lemma MoveOne(was: seq<Byte>, to: nat, from: nat, j: nat)
    requires to <= from && from + j < |was|
    ensures var buf := Splice(was, to, was[from..from + j]);
      buf[from + j] == was[from + j]
      && buf[to + j := was[from + j]] == Splice(was, to, was[from..from + j + 1])
  {
    var moved, more := was[from..from + j], was[from..from + j + 1];
    assert more == moved + [was[from + j]];
  }

  /** Moves bytes towards the front of the buffer, over themselves if need be. */
  method Move(buffer: array<Byte>, to: nat, from: nat, n: nat)
    requires to <= from && from + n <= buffer.Length
    modifies buffer
    ensures buffer[..] == Splice(old(buffer[..]), to, old(buffer[from..from + n]))
  {
    ghost var was := buffer[..];
    var j := 0;
    assert was[from..from + j] == [];
    assert buffer[..] == Splice(was, to, was[from..from + j]);
    hide Splice;
    while j < n
      invariant j <= n
      invariant buffer[..] == Splice(was, to, was[from..from + j])
    {
      MoveOne(was, to, from, j);
      assert buffer[from + j] == buffer[..][from + j];
      ghost var buf := buffer[..];
      buffer[to + j] := buffer[from + j];
      assert buffer[..] == buf[to + j := was[from + j]];
      j := j + 1;
    }
  }

  function Zeros(n: nat): (z: seq<Byte>)
    ensures |z| == n && forall k :: 0 <= k < n ==> z[k] == 0
  {
    seq(n, _ => 0)
  }

  lemma ZerosAppend(m: nat, n: nat)
    ensures Zeros(m) + Zeros(n) == Zeros(m + n)
  {
  }
}
