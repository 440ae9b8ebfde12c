/**
  Revoke blocks of the journal: a count of the bytes used, and that many bytes of block numbers.
 */
module JournalRevoke {
  import opened Widths
  import opened JournalFormat
  import Bits

  const COUNT_AT: nat := 12   // r_count, after the header

  function EntrySize(c: Config): nat { if c.wide then 8 else 4 }

  /** The count as the signed number that the reader takes it for. */
  function Count(b: Block): (n: int)
    requires |b| >= REVOKE_HEADER
    ensures -0x8000_0000 <= n < 0x8000_0000 && (Be32(b, COUNT_AT) - n) % U32 == 0
  {
    BeBound(b, COUNT_AT, 4);
    Limits();
    var n := Be32(b, COUNT_AT);
    if n < U32 / 2 then n else n - U32
  }

  /** Where the entries that lie in the block whole come to an end. */
  function LastEnd(c: Config, b: Block): nat { |b| - |b| % EntrySize(c) }

  /** The block numbers from offset `o` on, up to the count `max`. */
  function Revoked(c: Config, b: Block, o: nat, max: int): seq<nat>
    decreases |b| - o
  {
    if o >= max || o + EntrySize(c) > |b| then []
    else [Be(b, o, EntrySize(c))] + Revoked(c, b, o + EntrySize(c), max)
  }

  /** Where entry `k` begins. */
  function EntryAt(c: Config, k: nat): (o: nat)
    ensures o >= REVOKE_HEADER
  {
    if k == 0 then REVOKE_HEADER else EntryAt(c, k - 1) + EntrySize(c)
  }

  predicate EntryIs(c: Config, b: Block, k: nat, n: nat)
    requires |b| == c.blockSize
  {
    EntryAt(c, k + 1) <= c.Room() && Be(b, EntryAt(c, k), EntrySize(c)) == n
  }

  /** The first |ns| entries of `b` are `ns`. */
  predicate Listed(c: Config, b: Block, ns: seq<nat>)
    requires |b| == c.blockSize
  {
    forall k {:trigger EntryIs(c, b, k, ns[k])} :: 0 <= k < |ns| ==> EntryIs(c, b, k, ns[k])
  }

  /** `b` is a revoke block of transaction `tid` that a reader takes to revoke `ns`. */
  predicate RevokeIs(c: Config, b: Block, tid: nat, ns: seq<nat>)
  {
    && |b| == c.blockSize >= REVOKE_HEADER && IsControl(b, REVOKE, tid) && Count(b) <= LastEnd(c, b)
    && Revoked(c, b, REVOKE_HEADER, Count(b)) == ns
  }

  lemma {:induction false} EntryAtWhole(c: Config, k: nat)
    ensures EntryAt(c, k) % EntrySize(c) == 0
  {
    if k > 0 {
      EntryAtWhole(c, k - 1);
    }
  }

  lemma {:induction false} EntryAtMonotone(c: Config, a: nat, b: nat)
    requires a <= b
    ensures EntryAt(c, a) <= EntryAt(c, b)
    ensures a < b ==> EntryAt(c, a) + EntrySize(c) <= EntryAt(c, b)
    decreases b - a
  {
    if a < b {
      EntryAtMonotone(c, a + 1, b);
    }
  }

  /** What was listed is what is read back. */
  lemma {:induction false} ListedIsRead(c: Config, b: Block, ns: seq<nat>, k: nat)
    requires |b| == c.blockSize && Listed(c, b, ns) && k <= |ns|
    ensures Revoked(c, b, EntryAt(c, k), EntryAt(c, |ns|)) == ns[k..]
    decreases |ns| - k
  {
    EntryAtMonotone(c, k, |ns|);
    if k < |ns| {
      assert EntryIs(c, b, k, ns[k]);
      ListedIsRead(c, b, ns, k + 1);
    }
  }

  lemma {:induction false} ListedFrame(c: Config, a: Block, b: Block, ns: seq<nat>)
    requires |a| == |b| == c.blockSize && Listed(c, a, ns)
    requires forall i :: REVOKE_HEADER <= i < EntryAt(c, |ns|) && i < |a| ==> a[i] == b[i]
    ensures Listed(c, b, ns)
  {
    forall k | 0 <= k < |ns| ensures EntryIs(c, b, k, ns[k]) {
      assert EntryIs(c, a, k, ns[k]);
      EntryAtMonotone(c, k + 1, |ns|);
      BeFrame(a, b, EntryAt(c, k), EntrySize(c));
    }
  }

  /** The buffer with one more entry: as many low bits of the block number as an entry holds. */
  function WithEntry(c: Config, b: Block, k: nat, blk: nat): (d: Block)
    requires |b| == c.blockSize && EntryAt(c, k + 1) <= c.Room()
    ensures |d| == |b| && EntryIs(c, d, k, Kept(c, blk))
    ensures forall i :: 0 <= i < EntryAt(c, k) ==> d[i] == b[i]
  {
    BePut(b, EntryAt(c, k), EntrySize(c), Kept(c, blk));
    Put(b, EntryAt(c, k), EntrySize(c), Kept(c, blk))
  }

  function Kept(c: Config, blk: nat): (n: nat)
    ensures n < Limit(EntrySize(c))
  {
    LimitPositive(EntrySize(c));
    blk % Limit(EntrySize(c))
  }

  lemma {:induction false} LimitPositive(n: nat)
    ensures Limit(n) > 0
  {
    if n > 0 {
      LimitPositive(n - 1);
    }
  }

  function KeptOf(c: Config, blks: seq<nat>): (ns: seq<nat>)
    ensures |ns| == |blks| && forall k :: 0 <= k < |blks| ==> ns[k] == Kept(c, blks[k])
  {
    seq(|blks|, i requires 0 <= i < |blks| => Kept(c, blks[i]))
  }

  lemma {:induction false} KeptOne(c: Config, blk: nat)
    ensures Kept(c, blk) == blk <==> blk < Limit(EntrySize(c))
  {
    LimitPositive(EntrySize(c));
    if blk < Limit(EntrySize(c)) {
      Bits.QuotientUnique(blk, Limit(EntrySize(c)), 0, blk);
    }
  }

  /** Nothing is lost of the numbers if and only if each of them fits an entry. */
  lemma {:induction false} KeptInFull(c: Config, blks: seq<nat>)
    ensures KeptOf(c, blks) == blks <==> forall k :: 0 <= k < |blks| ==> blks[k] < Limit(EntrySize(c))
  {
    forall k | 0 <= k < |blks| ensures KeptOf(c, blks)[k] == blks[k] <==> blks[k] < Limit(EntrySize(c)) {
      KeptOne(c, blks[k]);
    }
  }

  lemma {:induction false} OneMoreEntry(c: Config, b: Block, blks: seq<nat>, blk: nat)
    requires |b| == c.blockSize && Listed(c, b, KeptOf(c, blks)) && EntryAt(c, |blks| + 1) <= c.Room()
    ensures Listed(c, WithEntry(c, b, |blks|, blk), KeptOf(c, blks + [blk]))
  {
    var d, ns, ns' := WithEntry(c, b, |blks|, blk), KeptOf(c, blks), KeptOf(c, blks + [blk]);
    ListedFrame(c, b, d, ns);
    forall k | 0 <= k < |ns'| ensures EntryIs(c, d, k, ns'[k]) {
      if k < |ns| {
        assert EntryIs(c, d, k, ns[k]);
      }
    }
  }

  /** The buffer as it goes to disk: with the count of bytes used, and the checksum. */
  function Counted(c: Config, b: Block, n: nat, csum: nat): (d: Block)
    requires c.Valid() && |b| == c.blockSize && EntryAt(c, n) <= c.Room() && csum < U32
    ensures |d| == |b|
  {
    Sealed(c, Put32(b, COUNT_AT, EntryAt(c, n)), csum)
  }

  lemma {:induction false} CountedIsRevoke(c: Config, b: Block, tid: nat, ns: seq<nat>, csum: nat)
    requires c.Valid() && |b| == c.blockSize && IsControl(b, REVOKE, tid) && Listed(c, b, ns)
    requires EntryAt(c, |ns|) <= c.Room() && csum < U32
    ensures RevokeIs(c, Counted(c, b, |ns|, csum), tid, ns)
  {
    var d0 := Put32(b, COUNT_AT, EntryAt(c, |ns|));
    var d := Sealed(c, d0, csum);
    assert b[..HEADER] == d[..HEADER];
    ControlFrame(b, d, REVOKE, tid);
    BeFrame(d0, d, COUNT_AT, 4);
    EntryAtWhole(c, |ns|);
    WholeStep(EntryAt(c, |ns|), |d|, EntrySize(c));
    ListedFrame(c, b, d, ns);
    ListedIsRead(c, d, ns, 0);
  }

  lemma {:induction false} Step4(o: nat, len: nat)
    requires o <= len && o % 4 == 0
    ensures (o + 4) % 4 == 0 && o <= len - len % 4 && (o + 4 > len <==> o == len - len % 4)
  {
    var q, r, k := len / 4, len % 4, o / 4;
    assert len == 4 * q + r && o == 4 * k;
  }

  lemma {:induction false} Step8(o: nat, len: nat)
    requires o <= len && o % 8 == 0
    ensures (o + 8) % 8 == 0 && o <= len - len % 8 && (o + 8 > len <==> o == len - len % 8)
  {
    var q, r, k := len / 8, len % 8, o / 8;
    assert len == 8 * q + r && o == 8 * k;
  }

  lemma {:induction false} WholeStep(o: nat, len: nat, size: nat)
    requires o <= len && (size == 4 || size == 8) && o % size == 0
    ensures (o + size) % size == 0 && o <= len - len % size && (o + size > len <==> o == len - len % size)
  {
    if size == 4 {
      Step4(o, len);
    } else {
      Step8(o, len);
    }
  }

  /** dump_revoke_block: every block number the block revokes, in order.  `beyond` says that the loop
      then goes on to read what lies behind the block: exactly if the count is more than the entries
      that fit. */
  method DumpRevoke(c: Config, b: Block) returns (listed: seq<nat>, beyond: bool)
    requires |b| == c.blockSize >= REVOKE_HEADER
    ensures listed == Revoked(c, b, REVOKE_HEADER, Count(b))
    ensures beyond <==> Count(b) > LastEnd(c, b)
  {
    var offset, max, size := REVOKE_HEADER, Count(b), EntrySize(c);
    listed, beyond := [], false;
    while offset < max
      invariant offset % size == 0 && REVOKE_HEADER <= offset <= |b|
      invariant listed + Revoked(c, b, offset, max) == Revoked(c, b, REVOKE_HEADER, max)
      decreases max - offset
    {
      WholeStep(offset, |b|, size);
      if offset + size > |b| {
        return listed, true;
      }
      listed := listed + [Be(b, offset, size)];
      offset := offset + size;
    }
    WholeStep(offset, |b|, size);
  }
}
