/**
 * Packet framing shared by the fire-and-forget BLE senders: a 4-byte length
 * header, then the payload cut into chunks of a fixed size, optionally with
 * a trailer appended to the last chunk.
 */
module Framing {

  /** One octet, as `uint8_t`. */
  type byte = x: int | 0 <= x < 256

  /** 2^32: one past the largest `uint32_t`. */
  const U32_LIMIT: int := 0x1_0000_0000
  /** 2^31: one past the largest signed 32-bit `int`. */
  const INT_LIMIT: int := 0x8000_0000

  function Min(a: int, b: int): int { if a <= b then a else b }

  /**
   * A sender loop `for (int i = 0; i < len; i += c)` never overflows its
   * signed 32-bit counter: the last value it takes is below len + c.
   */
  predicate LoopFits(len: nat, c: nat) { len + c <= INT_LIMIT }

  // ---------------------------------------------------------------------
  // Length header
  // ---------------------------------------------------------------------

  /** The bytes of a `uint32_t` as they lie in the little-endian memory of the ESP32-S3. */
  function LE32(n: nat): (r: seq<byte>)
    requires n < U32_LIMIT
    ensures |r| == 4
  {
    [n % 0x100, (n / 0x100) % 0x100, (n / 0x1_0000) % 0x100, n / 0x100_0000]
  }

  /** How a receiver reads the 4-byte header back as a number. */
  function DecodeLE32(s: seq<byte>): (n: nat)
    requires |s| == 4
    ensures n < U32_LIMIT
  {
    s[0] as int + 0x100 * s[1] as int + 0x1_0000 * s[2] as int + 0x100_0000 * s[3] as int
  }

  /** The header a sender emits decodes to the length it encoded. */
  lemma LE32RoundTrip(n: nat)
    requires n < U32_LIMIT
    ensures DecodeLE32(LE32(n)) == n
  {
    // Dafny finds this proof unaided only past the resource limit; these steps keep it cheap.
    var b := LE32(n);
    var q1, q2 := n / 0x100, n / 0x1_0000;
    assert n == b[0] + 0x100 * q1;
    assert q2 == q1 / 0x100 by {
      DivDiv(n);
    }
    assert q1 == b[1] + 0x100 * q2;
    assert q2 == b[2] as int + 0x100 * b[3] as int by {
      assert b[3] == q2 / 0x100 by {
        DivDiv(n / 0x100);
      }
    }
  }

  /** Dividing by 2^16 is dividing by 2^8 twice; likewise 2^24 after a first 2^8. */
  lemma DivDiv(n: nat)
    ensures n / 0x1_0000 == (n / 0x100) / 0x100
    ensures (n / 0x100) / 0x1_0000 == n / 0x100_0000
  {
  }

  /** Splitting a number as `lo + 256 * hi` with a byte `lo` is its division by 256. */
  lemma SplitByte(n: nat, lo: int, hi: nat)
    requires 0 <= lo < 0x100 && n == lo + 0x100 * hi
    ensures n % 0x100 == lo && n / 0x100 == hi
  {
  }

  /** Every 4-byte header is the encoding of exactly one length. */
  lemma DecodeLE32RoundTrip(s: seq<byte>)
    requires |s| == 4
    ensures LE32(DecodeLE32(s)) == s
  {
    // Dafny finds this proof unaided only past the resource limit; these steps keep it cheap.
    var n: nat := DecodeLE32(s);
    var u: nat := s[2] as int + 0x100 * s[3] as int;
    var t: nat := s[1] as int + 0x100 * u;
    assert n == s[0] + 0x100 * t;
    SplitByte(n, s[0], t);
    SplitByte(t, s[1], u);
    SplitByte(u, s[2], s[3]);
    DivDiv(n);
    assert n / 0x1_0000 == u;
    assert n / 0x100_0000 == u / 0x100 by {
      DivDiv(n / 0x100);
      assert n / 0x100_0000 == (n / 0x1_0000) / 0x100;
    }
  }

  // ---------------------------------------------------------------------
  // Chunking
  // ---------------------------------------------------------------------

  /**
   * The payload cut into pieces of `c` bytes, the last one holding what is
   * left: the cut `min(c, len - i)` every sender loop makes.
   */
  function Chunks(p: seq<byte>, c: nat): seq<seq<byte>>
    requires c > 0
    decreases |p|
  {
    if |p| == 0 then []
    else if |p| <= c then [p]
    else [p[..c]] + Chunks(p[c..], c)
  }

  /**
   * One step of a sender loop at offset `i`: the chunks still to go are the
   * piece [i, i + min(c, len - i)) followed by the chunks from i + c on.
   */
  lemma NextChunk(p: seq<byte>, c: nat, i: nat)
    requires c > 0 && i < |p|
    ensures Chunks(p[i..], c)
      == [p[i .. i + Min(c, |p| - i)]] + (if i + c < |p| then Chunks(p[i + c..], c) else [])
  {
    if i + c < |p| {
      assert p[i..][..c] == p[i .. i + c];
      assert p[i..][c..] == p[i + c..];
    } else {
      assert p[i..] == p[i .. i + Min(c, |p| - i)];
    }
  }

  /**
   * The invariant of a sender loop survives one step: `done` holds the chunks
   * sent before offset `i`; after sending the piece at `i`, what is sent and
   * what remains still make up all the chunks.
   */
  lemma ChunkStep(p: seq<byte>, c: nat, i: nat, done: seq<seq<byte>>, chunk: seq<byte>)
    requires c > 0 && i < |p|
    requires done + Chunks(p[i..], c) == Chunks(p, c)
    requires chunk == p[i .. i + Min(c, |p| - i)]
    ensures i + c < |p| ==> (done + [chunk]) + Chunks(p[i + c..], c) == Chunks(p, c)
    ensures i + c >= |p| ==> done + [chunk] == Chunks(p, c)
  {
    NextChunk(p, c, i);
    if i + c < |p| {
      assert (done + [chunk]) + Chunks(p[i + c..], c) == done + ([chunk] + Chunks(p[i + c..], c));
    } else {
      assert Chunks(p[i..], c) == [chunk];
    }
  }

  /** The number of `c`-byte pieces needed for `n` bytes: ceil(n / c). */
  function CeilDiv(n: nat, c: nat): nat
    requires c > 0
  {
    (n + c - 1) / c
  }

  /** `k` is ceil(n / c) as soon as k pieces suffice and k - 1 do not. */
  lemma CeilDivUnique(n: nat, c: nat, k: nat)
    requires c > 0 && n > 0
    requires (k - 1) * c < n <= k * c
    ensures CeilDiv(n, c) == k
  {
    var m := n + c - 1;
    assert k * c <= m < k * c + c by {
      assert (k - 1) * c == k * c - c;
    }
    DivIsFloor(m, c, k);
  }

  lemma DivIsFloor(m: nat, c: nat, k: nat)
    requires c > 0 && k * c <= m < k * c + c
    ensures m / c == k
  {
    var q, r := m / c, m % c;
    assert m == q * c + r && 0 <= r < c;
    assert (q + 1) * c == q * c + c;
    assert (k + 1) * c == k * c + c;
    if q < k {
      MulMono(q + 1, k, c);
      assert false;
    }
    if q > k {
      MulMono(k + 1, q, c);
      assert false;
    }
  }

  lemma MulMono(x: nat, y: nat, c: nat)
    requires x <= y
    ensures x * c <= y * c
  {
  }

  /** One more piece of `c` bytes is `c` more bytes. */
  lemma MulSucc(k: nat, c: nat)
    ensures (k + 1) * c == k * c + c
  {
  }

  /** ceil(n / c) pieces of `c` bytes hold `n` bytes, and one piece fewer does not. */
  lemma CeilDivBounds(n: nat, c: nat)
    requires c > 0 && n > 0
    ensures (CeilDiv(n, c) - 1) * c < n <= CeilDiv(n, c) * c
  {
    var m, q := n + c - 1, CeilDiv(n, c);
    assert q * c <= m < q * c + c by {
      assert m == q * c + m % c;
    }
    assert (q - 1) * c == q * c - c;
  }

  /**
   * The loop's `i + currentChunkSize >= len` test at step k (offset k*c)
   * holds at exactly one step, the last of the ceil(len / c) steps.
   */
  lemma LastChunkOnce(len: nat, c: nat, k: nat)
    requires c > 0 && len > 0 && k < CeilDiv(len, c)
    ensures (k * c + Min(c, len - k * c) >= len) <==> k == CeilDiv(len, c) - 1
  {
    var n := CeilDiv(len, c);
    CeilDivBounds(len, c);
    if k < n - 1 {
      MulMono(k + 1, n - 1, c);
      assert (k + 1) * c == k * c + c;
    } else {
      assert k * c + c == n * c;
    }
  }

  /**
   * There are ceil(len / c) chunks: enough to hold the payload, and one
   * fewer would not; an empty payload has none.
   */
  lemma ChunksCount(p: seq<byte>, c: nat)
    requires c > 0
    ensures |Chunks(p, c)| == 0 <==> |p| == 0
    ensures |p| <= |Chunks(p, c)| * c
    ensures |p| > 0 ==> (|Chunks(p, c)| - 1) * c < |p|
    ensures |Chunks(p, c)| == CeilDiv(|p|, c)
  {
    ChunksBounds(p, c);
    if |p| > 0 {
      CeilDivUnique(|p|, c, |Chunks(p, c)|);
    }
  }

  /** The chunks hold the payload, and all but one chunk would not. */
  lemma {:induction false} ChunksBounds(p: seq<byte>, c: nat)
    requires c > 0
    ensures |Chunks(p, c)| == 0 <==> |p| == 0
    ensures |p| <= |Chunks(p, c)| * c
    ensures |p| > 0 ==> (|Chunks(p, c)| - 1) * c < |p|
    decreases |p|
  {
    if |p| > c {
      ChunksBounds(p[c..], c);
      var k' := |Chunks(p[c..], c)|;
      assert |Chunks(p, c)| == k' + 1;
      MulSucc(k', c);
    }
  }

  /**
   * Chunk number `k` holds exactly the payload bytes [k*c, min((k+1)*c, len)):
   * each chunk can be produced on its own from its index.
   */
  lemma {:induction false} ChunkAt(p: seq<byte>, c: nat, k: nat)
    requires c > 0 && k < |Chunks(p, c)|
    ensures k * c < |p|
    ensures Chunks(p, c)[k] == p[k * c .. Min((k + 1) * c, |p|)]
    decreases k
  {
    if k > 0 {
      var q := p[c..];
      assert |p| > c;
      assert Chunks(p, c) == [p[..c]] + Chunks(q, c);
      ChunkAt(q, c, k - 1);
      var lo, hi := (k - 1) * c, Min(k * c, |q|);
      ShiftBounds(|p|, c, k);
      SliceOfSuffix(p, c, lo, hi);
    }
  }

  /** The bounds of chunk k are those of chunk k - 1 of the payload past its first `c` bytes, shifted by `c`. */
  lemma ShiftBounds(len: nat, c: nat, k: nat)
    requires c > 0 && k > 0 && len > c
    ensures k * c == (k - 1) * c + c
    ensures Min((k + 1) * c, len) == Min(k * c, len - c) + c
  {
    MulSucc(k - 1, c);
    MulSucc(k, c);
  }

  /** A slice of the payload past its first `c` bytes is the slice shifted by `c`. */
  lemma SliceOfSuffix(p: seq<byte>, c: nat, lo: nat, hi: nat)
    requires c <= |p| && lo <= hi <= |p| - c
    ensures p[c..][lo..hi] == p[lo + c .. hi + c]
  {
  }

  /**
   * Every chunk but the last is full; the last holds the remainder
   * len - (n-1)*c, which lies in [1, c].
   */
  lemma {:induction false} ChunkSizes(p: seq<byte>, c: nat)
    requires c > 0
    ensures forall k :: 0 <= k < |Chunks(p, c)| - 1 ==> |Chunks(p, c)[k]| == c
    ensures |Chunks(p, c)| > 0 ==>
      var last := Chunks(p, c)[|Chunks(p, c)| - 1];
      1 <= |last| <= c && |last| == |p| - (|Chunks(p, c)| - 1) * c
    decreases |p|
  {
    if |p| > c {
      var rest := Chunks(p[c..], c);
      ChunkSizes(p[c..], c);
      ChunksBounds(p[c..], c);
      assert Chunks(p, c) == [p[..c]] + rest;
      MulSucc(|rest| - 1, c);
    }
  }

  // ---------------------------------------------------------------------
  // Reassembly
  // ---------------------------------------------------------------------

  /** What a receiver gets by concatenating packets in arrival order. */
  function Flatten(ss: seq<seq<byte>>): seq<byte>
    decreases |ss|
  {
    if |ss| == 0 then [] else ss[0] + Flatten(ss[1..])
  }

  lemma {:induction false} FlattenAppend(a: seq<seq<byte>>, b: seq<seq<byte>>)
    ensures Flatten(a + b) == Flatten(a) + Flatten(b)
    decreases |a|
  {
    if |a| == 0 {
      assert a + b == b;
    } else {
      assert (a + b)[0] == a[0];
      assert (a + b)[1..] == a[1..] + b;
      FlattenAppend(a[1..], b);
    }
  }

  /** Concatenating the chunks gives back the payload, in order and with nothing lost. */
  lemma {:induction false} ChunksFlatten(p: seq<byte>, c: nat)
    requires c > 0
    ensures Flatten(Chunks(p, c)) == p
    decreases |p|
  {
    if |p| > c {
      var cs := Chunks(p, c);
      assert cs[1..] == Chunks(p[c..], c);
      ChunksFlatten(p[c..], c);
      assert p == p[..c] + p[c..];
    } else if |p| > 0 {
      assert |Chunks(p, c)[1..]| == 0;
    }
  }

  // ---------------------------------------------------------------------
  // Trailer and whole transmission
  // ---------------------------------------------------------------------

  /** The chunks with `t` appended to the last one; nothing when there are no chunks. */
  function WithTrailer(cs: seq<seq<byte>>, t: seq<byte>): (r: seq<seq<byte>>)
    ensures |r| == |cs|
  {
    if |cs| == 0 then [] else cs[..|cs| - 1] + [cs[|cs| - 1] + t]
  }

  /** Once the last chunk is known, the trailer goes right after it. */
  lemma WithTrailerOfLast(done: seq<seq<byte>>, last: seq<byte>, t: seq<byte>)
    ensures WithTrailer(done + [last], t) == done + [last + t]
  {
    var cs := done + [last];
    assert cs[..|cs| - 1] == done;
  }

  /**
   * One step of a sender loop that appends the trailer `t` to its last
   * chunk: the step at offset `i` is the last exactly when its piece reaches
   * the end, and then the chunks sent, trailer included, are all of them.
   */
  lemma ChunkStepWithTrailer(p: seq<byte>, c: nat, i: nat, done: seq<seq<byte>>, chunk: seq<byte>, t: seq<byte>)
    requires c > 0 && i < |p|
    requires done + Chunks(p[i..], c) == Chunks(p, c)
    requires chunk == p[i .. i + Min(c, |p| - i)]
    ensures i + |chunk| < |p| ==> i + c < |p| && (done + [chunk]) + Chunks(p[i + c..], c) == Chunks(p, c)
    ensures i + |chunk| >= |p| ==> done + [chunk + t] == WithTrailer(Chunks(p, c), t)
  {
    ChunkStep(p, c, i, done, chunk);
    if i + |chunk| >= |p| {
      WithTrailerOfLast(done, chunk, t);
    }
  }

  /** An empty trailer leaves the chunks as they are. */
  lemma WithEmptyTrailer(cs: seq<seq<byte>>)
    ensures WithTrailer(cs, []) == cs
  {
    if |cs| > 0 {
      assert cs[|cs| - 1] + [] == cs[|cs| - 1];
      assert cs[..|cs| - 1] + [cs[|cs| - 1]] == cs;
    }
  }

  /** Reassembling chunks that carry a trailer yields their bytes followed by the trailer once. */
  lemma FlattenWithTrailer(init: seq<seq<byte>>, last: seq<byte>, t: seq<byte>)
    ensures Flatten(WithTrailer(init + [last], t)) == Flatten(init + [last]) + t
  {
    WithTrailerOfLast(init, last, t);
    FlattenSnoc(init, last + t);
    FlattenSnoc(init, last);
    assert Flatten(init) + (last + t) == (Flatten(init) + last) + t;
  }

  /** One more packet at the end adds its bytes at the end. */
  lemma FlattenSnoc(init: seq<seq<byte>>, x: seq<byte>)
    ensures Flatten(init + [x]) == Flatten(init) + x
  {
    FlattenAppend(init, [x]);
    assert |[x][1..]| == 0;
  }

  /**
   * Every packet a sender notifies for one payload: nothing while no central
   * is connected, otherwise the 4-byte length header and the chunks, the last
   * one followed by the trailer `t`.
   */
  function Transmission(connected: bool, p: seq<byte>, c: nat, t: seq<byte>): seq<seq<byte>>
    requires c > 0 && |p| < U32_LIMIT
  {
    if !connected then [] else [LE32(|p|)] + WithTrailer(Chunks(p, c), t)
  }

  /**
   * A receiver that reads the header and concatenates the rest recovers the
   * length and the payload (followed by the trailer when there was a data
   * packet), from ceil(len / c) data packets.
   */
  lemma TransmissionRoundTrip(p: seq<byte>, c: nat, t: seq<byte>)
    requires c > 0 && |p| < U32_LIMIT
    ensures var pk := Transmission(true, p, c, t);
      && |pk| == 1 + CeilDiv(|p|, c)
      && |pk[0]| == 4 && DecodeLE32(pk[0]) == |p|
      && Flatten(pk[1..]) == p + (if |p| == 0 then [] else t)
  {
    var pk := Transmission(true, p, c, t);
    var cs := Chunks(p, c);
    ChunksCount(p, c);
    LE32RoundTrip(|p|);
    assert pk[1..] == WithTrailer(cs, t);
    ChunksFlatten(p, c);
    if |p| > 0 {
      assert cs == cs[..|cs| - 1] + [cs[|cs| - 1]];
      FlattenWithTrailer(cs[..|cs| - 1], cs[|cs| - 1], t);
    } else {
      assert p + [] == p;
    }
  }

  /**
   * Packet sizes on the air: a 4-byte header, full data packets of `c`
   * bytes, and a last data packet of the remainder in [1, c] plus the trailer.
   */
  lemma TransmissionSizes(p: seq<byte>, c: nat, t: seq<byte>)
    requires c > 0 && |p| < U32_LIMIT
    ensures var pk := Transmission(true, p, c, t);
      && |pk[0]| == 4
      && (forall j :: 1 <= j < |pk| - 1 ==> |pk[j]| == c)
      && (|pk| > 1 ==> 1 + |t| <= |pk[|pk| - 1]| <= c + |t|)
      && (|pk| > 1 ==> pk[|pk| - 1][|pk[|pk| - 1]| - |t|..] == t)
  {
    var pk := Transmission(true, p, c, t);
    var cs := Chunks(p, c);
    ChunkSizes(p, c);
    assert forall j :: 1 <= j < |pk| - 1 ==> pk[j] == cs[j - 1];
    if |pk| > 1 {
      var last := cs[|cs| - 1];
      assert pk[|pk| - 1] == last + t;
      assert (last + t)[|last + t| - |t|..] == t;
    }
  }
}
