/** Where the variable-length file entries of an archive request lie. */
module ArchReqLayout {
  import opened ModularCounting

  type Byte = x: int | 0 <= x < 256

  type Memory = seq<Byte>

  /** The sizes that depend on the machine: the rounding unit of STRUCT_RND, the two
      structures, and where the name length and the status are in an entry. */
  datatype Platform = Platform(unit: nat, infoSize: nat, offlineSize: nat, nameLenAt: nat, statusAt: nat) {
    predicate Valid() {
      unit > 0 && nameLenAt + 2 <= infoSize && statusAt < infoSize
    }

    /** STRUCT_RND: the least multiple of the unit that is not below v. */
    function Rnd(v: nat): (r: nat)
      requires Valid()
      ensures v <= r < v + unit
    {
      if v == 0 then 0 else if v <= unit then unit else unit + Rnd(v - unit)
    }

    predicate Aligned(at: nat)
      requires Valid()
    {
      at % unit == 0
    }
  }

  lemma Multiple(k: nat, unit: nat)
    requires unit > 0
    ensures k * unit % unit == 0
  {
    var q, s := k * unit / unit, k * unit % unit;
    assert s == unit * (k - q);
    QuotientIsZero(unit, k - q, s);
  }

  /** The macro's formula: sizes are rounded to whole units. */
  lemma {:induction false} RndIsMacro(p: Platform, v: nat)
    requires p.Valid()
    ensures p.Rnd(v) == (v + p.unit - 1) / p.unit * p.unit && p.Aligned(p.Rnd(v))
  {
    var k := RndIsMultiple(p, v);
    Multiple(k, p.unit);
    var w := v + p.unit - 1;
    var q := w / p.unit;
    assert w == p.unit * q + w % p.unit;
    assert p.unit * (k - q) == p.Rnd(v) - w + w % p.unit;
    QuotientIsZero(p.unit, k - q, p.Rnd(v) - w + w % p.unit);
  }

  lemma {:induction false} RndIsMultiple(p: Platform, v: nat) returns (k: nat)
    requires p.Valid()
    ensures p.Rnd(v) == k * p.unit
    decreases v
  {
    if v == 0 {
      return 0;
    } else if v <= p.unit {
      return 1;
    } else {
      k := RndIsMultiple(p, v - p.unit);
      return k + 1;
    }
  }

  lemma AlignedSum(p: Platform, a: nat, b: nat)
    requires p.Valid() && p.Aligned(a) && p.Aligned(b)
    ensures p.Aligned(a + b)
  {
    SameRemainder(a, a + b, p.unit);
  }

  // ------------------------------------------------------------ entries

  predicate Readable(p: Platform, mem: Memory, fi: nat) {
    fi + p.infoSize <= |mem|
  }

  // FiName_l
  function NameLength(p: Platform, mem: Memory, fi: nat): nat
    requires p.Valid() && Readable(p, mem, fi)
  {
    var low: int, high: int := mem[fi + p.nameLenAt], mem[fi + p.nameLenAt + 1];
    low + 256 * high
  }

  // FiStatus & FIF_offline
  predicate IsOffline(p: Platform, mem: Memory, fi: nat)
    requires p.Valid() && Readable(p, mem, fi)
  {
    mem[fi + p.statusAt] / 2 % 2 == 1
  }

  /** Of a status byte the flag of weight 2 is the one tested, whatever FIF_exam below it
      and the flags above it are. */
  lemma OfflineIff(p: Platform, mem: Memory, fi: nat, exam: bool, offline: bool, others: nat)
    requires p.Valid() && Readable(p, mem, fi)
    requires mem[fi + p.statusAt] == 4 * others + (if offline then 2 else 0) + if exam then 1 else 0
    ensures IsOffline(p, mem, fi) <==> offline
  {
    var low: int := (if offline then 2 else 0) + if exam then 1 else 0;
    assert (4 * others + low) / 2 == 2 * others + low / 2;
  }

  /** LOC_OFFLINE_INFO, as an offset. */
  function LocOfflineInfo(p: Platform, mem: Memory, fi: nat): nat
    requires p.Valid() && Readable(p, mem, fi)
  {
    fi + p.Rnd(p.infoSize) + p.Rnd(NameLength(p, mem, fi))
  }

  /** FI_SIZE: room for the structure, the name and, for an offline file, the offline
      information, which ends with the entry. */
  function FiSize(p: Platform, mem: Memory, fi: nat): (size: nat)
    requires p.Valid() && Readable(p, mem, fi)
    ensures size >= p.infoSize + NameLength(p, mem, fi)
    ensures fi + size == LocOfflineInfo(p, mem, fi) + if IsOffline(p, mem, fi) then p.Rnd(p.offlineSize) else 0
  {
    p.Rnd(p.infoSize) + p.Rnd(NameLength(p, mem, fi)) + if IsOffline(p, mem, fi) then p.Rnd(p.offlineSize) else 0
  }

  lemma SizeIsAligned(p: Platform, mem: Memory, fi: nat)
    requires p.Valid() && Readable(p, mem, fi)
    ensures p.Aligned(FiSize(p, mem, fi))
  {
    var a, b, c := p.Rnd(p.infoSize), p.Rnd(NameLength(p, mem, fi)), p.Rnd(p.offlineSize);
    RndIsMacro(p, p.infoSize);
    RndIsMacro(p, NameLength(p, mem, fi));
    RndIsMacro(p, p.offlineSize);
    AlignedSum(p, a, b);
    AlignedSum(p, a + b, c);
  }

  // An entry's size is in the entry, wherever it lies.
  lemma SizeIsLocal(p: Platform, a: Memory, i: nat, b: Memory, j: nat)
    requires p.Valid() && Readable(p, a, i) && Readable(p, b, j)
    requires a[i..i + p.infoSize] == b[j..j + p.infoSize]
    ensures FiSize(p, a, i) == FiSize(p, b, j)
  {
    var x, y := a[i..i + p.infoSize], b[j..j + p.infoSize];
    assert x[p.nameLenAt] == y[p.nameLenAt] && x[p.nameLenAt + 1] == y[p.nameLenAt + 1];
    assert x[p.statusAt] == y[p.statusAt];
  }

  // ------------------------------------------------------------ walking

  /** From start, stepping by FI_SIZE, the entries are at these offsets and the last
      one ends at end. */
  predicate Tiled(p: Platform, mem: Memory, start: nat, offs: seq<nat>, end: nat)
    requires p.Valid()
    decreases |offs|
  {
    if offs == [] then start == end && end <= |mem|
    else
      && offs[0] == start && Readable(p, mem, start)
      && Tiled(p, mem, start + FiSize(p, mem, start), offs[1..], end)
  }

  /** Entries follow one another in order, without overlap, inside the region. */
  lemma {:induction false} TilesAreApart(p: Platform, mem: Memory, start: nat, offs: seq<nat>, end: nat, i: nat)
    requires p.Valid() && Tiled(p, mem, start, offs, end) && i < |offs|
    ensures start <= offs[i] && Readable(p, mem, offs[i]) && offs[i] + FiSize(p, mem, offs[i]) <= end <= |mem|
    ensures forall j | i < j < |offs| :: offs[i] + FiSize(p, mem, offs[i]) <= offs[j]
    decreases |offs|
  {
    var next, rest := start + FiSize(p, mem, start), offs[1..];
    TiledBounds(p, mem, next, rest, end);
    assert forall j | 0 < j < |offs| :: offs[j] == rest[j - 1] && rest[j - 1] in rest;
    if i > 0 {
      TilesAreApart(p, mem, next, rest, end, i - 1);
    }
  }

  lemma {:induction false} TiledBounds(p: Platform, mem: Memory, start: nat, offs: seq<nat>, end: nat)
    requires p.Valid() && Tiled(p, mem, start, offs, end)
    ensures start <= end <= |mem| && forall o <- offs :: start <= o
    decreases |offs|
  {
    if offs != [] {
      TiledBounds(p, mem, start + FiSize(p, mem, start), offs[1..], end);
      assert offs == [offs[0]] + offs[1..];
    }
  }

  /** Every byte of the region belongs to an entry. */
  lemma {:induction false} TilesCover(p: Platform, mem: Memory, start: nat, offs: seq<nat>, end: nat, at: nat)
    returns (i: nat)
    requires p.Valid() && Tiled(p, mem, start, offs, end) && start <= at < end
    ensures i < |offs| && Readable(p, mem, offs[i]) && offs[i] <= at < offs[i] + FiSize(p, mem, offs[i])
    decreases |offs|
  {
    var next := start + FiSize(p, mem, start);
    if at < next {
      return 0;
    }
    i := TilesCover(p, mem, next, offs[1..], end, at);
    assert offs[1..][i] == offs[i + 1];
    return i + 1;
  }

  /** Entries stay aligned. */
  lemma {:induction false} TilesAreAligned(p: Platform, mem: Memory, start: nat, offs: seq<nat>, end: nat)
    requires p.Valid() && Tiled(p, mem, start, offs, end) && p.Aligned(start)
    ensures p.Aligned(end) && forall o <- offs :: p.Aligned(o)
    decreases |offs|
  {
    if offs != [] {
      SizeIsAligned(p, mem, start);
      AlignedSum(p, start, FiSize(p, mem, start));
      TilesAreAligned(p, mem, start + FiSize(p, mem, start), offs[1..], end);
      assert offs == [offs[0]] + offs[1..];
    }
  }

  /** The step from entry i leads to the next one, or to the end. */
  lemma {:induction false} NextTile(p: Platform, mem: Memory, start: nat, offs: seq<nat>, end: nat, i: nat)
    requires p.Valid() && Tiled(p, mem, start, offs, end) && i < |offs|
    ensures Readable(p, mem, offs[i])
    ensures offs[i] + FiSize(p, mem, offs[i]) == if i + 1 < |offs| then offs[i + 1] else end
    decreases |offs|
  {
    if i > 0 { NextTile(p, mem, start + FiSize(p, mem, start), offs[1..], end, i - 1); }
  }

  /** The same bytes are walked the same way, whatever lies outside them. */
  lemma {:induction false} SameTiles(p: Platform, a: Memory, b: Memory, start: nat, offs: seq<nat>, end: nat)
    requires p.Valid() && Tiled(p, a, start, offs, end)
    requires start <= end <= |a| && end <= |b| && a[start..end] == b[start..end]
    ensures Tiled(p, b, start, offs, end)
    decreases |offs|
  {
    if offs != [] {
      var next := start + FiSize(p, a, start);
      TiledBounds(p, a, next, offs[1..], end);
      assert a[start..start + p.infoSize] == a[start..end][..p.infoSize];
      assert b[start..start + p.infoSize] == b[start..end][..p.infoSize];
      SizeIsLocal(p, a, start, b, start);
      assert a[next..end] == a[start..end][next - start..] && b[next..end] == b[start..end][next - start..];
      SameTiles(p, a, b, next, offs[1..], end);
    }
  }

  /** An entry on its own. */
  predicate IsEntry(p: Platform, e: Memory)
    requires p.Valid()
  {
    Readable(p, e, 0) && FiSize(p, e, 0) == |e|
  }

  /** An entry written where the last one ended is walked to next. */
  lemma {:induction false} OneMoreTile(p: Platform, mem: Memory, start: nat, offs: seq<nat>, end: nat, e: Memory)
    requires p.Valid() && Tiled(p, mem, start, offs, end)
    requires IsEntry(p, e) && end + |e| <= |mem| && mem[end..end + |e|] == e
    ensures Tiled(p, mem, start, offs + [end], end + |e|)
    decreases |offs|
  {
    if offs == [] {
      assert mem[end..end + p.infoSize] == mem[end..end + |e|][..p.infoSize];
      SizeIsLocal(p, mem, end, e, 0);
      assert (offs + [end])[1..] == [];
    } else {
      OneMoreTile(p, mem, start + FiSize(p, mem, start), offs[1..], end, e);
      assert (offs + [end])[1..] == offs[1..] + [end];
    }
  }

  /** An index that is a rearrangement of the entries' offsets reaches each entry
      exactly once. */
  lemma RearrangedIndex(p: Platform, mem: Memory, start: nat, offs: seq<nat>, end: nat, index: seq<nat>, i: nat)
    requires p.Valid() && Tiled(p, mem, start, offs, end) && p.infoSize > 0
    requires multiset(index) == multiset(offs) && i < |offs|
    ensures |index| == |offs| && exists k :: 0 <= k < |index| && index[k] == offs[i]
    ensures forall k, l | 0 <= k < l < |index| :: index[k] != index[l]
  {
    assert |multiset(index)| == |index| && |multiset(offs)| == |offs|;
    assert offs[i] in multiset(index);
    forall k, l | 0 <= k < l < |offs| ensures offs[k] != offs[l] {
      TilesAreApart(p, mem, start, offs, end, k);
    }
    DistinctRearranged(offs, index);
  }

  lemma {:induction false} DistinctCounts(s: seq<nat>, x: nat)
    ensures (forall k, l | 0 <= k < l < |s| :: s[k] != s[l]) ==> multiset(s)[x] <= 1
  {
    if s != [] {
      var n := |s| - 1;
      assert s == s[..n] + [s[n]];
      DistinctCounts(s[..n], x);
      if s[n] == x && x in s[..n] {
        var k :| 0 <= k < n && s[..n][k] == x;
        assert s[k] == s[n];
      }
    }
  }

  lemma DistinctRearranged(a: seq<nat>, b: seq<nat>)
    requires multiset(a) == multiset(b) && forall k, l | 0 <= k < l < |a| :: a[k] != a[l]
    ensures forall k, l | 0 <= k < l < |b| :: b[k] != b[l]
  {
    forall k, l | 0 <= k < l < |b| ensures b[k] != b[l] {
      DistinctCounts(a, b[k]);
      assert b == b[..k] + [b[k]] + b[k + 1..l] + [b[l]] + b[l + 1..];
    }
  }

  /** A shorter walk ends where the next entry begins. */
  lemma {:induction false} FewerTiles(p: Platform, mem: Memory, start: nat, offs: seq<nat>, end: nat, m: nat)
    requires p.Valid() && Tiled(p, mem, start, offs, end) && m <= |offs|
    ensures Tiled(p, mem, start, offs[..m], if m < |offs| then offs[m] else end)
    decreases |offs|
  {
    TiledBounds(p, mem, start, offs, end);
    if m == |offs| {
      assert offs[..m] == offs;
    } else if m > 0 {
      FewerTiles(p, mem, start + FiSize(p, mem, start), offs[1..], end, m - 1);
      assert offs[..m][1..] == offs[1..][..m - 1];
    }
  }
}

/** The request in its mapped file: appending entries, building the index behind
    them, and putting join entries where the index was. */
module ArchReqBuffer {
  import opened ArchReqLayout

  const ARCHREQ_START: nat := 16384
  const ARCHREQ_INCR: nat := 1024 * 1024
  const INT_LIMIT: nat := 0x8000_0000

  // ------------------------------------------------------------ memory

  /** After bytes were written at an offset. */
  predicate Wrote(before: Memory, after: Memory, at: nat, bytes: Memory) {
    && |after| == |before| && at + |bytes| <= |before| && after[at..at + |bytes|] == bytes
    && after[..at] == before[..at] && after[at + |bytes|..] == before[at + |bytes|..]
  }

  /** memmove, also when source and destination overlap: bytes are read first. */
  method Memmove(mem: Memory, at: nat, bytes: Memory) returns (after: Memory)
    requires at + |bytes| <= |mem|
    ensures Wrote(mem, after, at, bytes)
  {
    after := mem[..at] + bytes + mem[at + |bytes|..];
  }

  // An int in memory, low byte first.
  function IntAt(mem: Memory, at: nat): nat
    requires at + 4 <= |mem|
  {
    IntOf(mem[at], mem[at + 1], mem[at + 2], mem[at + 3])
  }

  function IntOf(a: int, b: int, c: int, d: int): int {
    a + 256 * (b + 256 * (c + 256 * d))
  }

  function IntBytes(v: nat): (bytes: Memory)
    requires v < INT_LIMIT
    ensures |bytes| == 4 && IntAt(bytes, 0) == v
  {
    var v1 := v / 256;
    var v2 := v1 / 256;
    [v % 256, v1 % 256, v2 % 256, v2 / 256]
  }

  /** n index slots from at on. */
  function IndexAt(mem: Memory, at: nat, n: nat): (s: seq<nat>)
    requires at + 4 * n <= |mem|
    ensures |s| == n
  {
    if n == 0 then [] else IndexAt(mem, at, n - 1) + [IntAt(mem, at + 4 * (n - 1))]
  }

  lemma {:induction false} IndexSlot(mem: Memory, at: nat, n: nat, i: nat)
    requires i < n && at + 4 * n <= |mem|
    ensures IndexAt(mem, at, n)[i] == IntAt(mem, at + 4 * i)
  {
    if i < n - 1 { IndexSlot(mem, at, n - 1, i); }
  }

  lemma SameInt(a: Memory, i: nat, b: Memory, j: nat)
    requires i + 4 <= |a| && j + 4 <= |b| && a[i..i + 4] == b[j..j + 4]
    ensures IntAt(a, i) == IntAt(b, j)
  {
    var x, y := a[i..i + 4], b[j..j + 4];
    assert x[0] == y[0] && x[1] == y[1] && x[2] == y[2] && x[3] == y[3];
  }

  /** The same bytes hold the same index, wherever they lie. */
  lemma {:induction false} SameIndex(a: Memory, i: nat, b: Memory, j: nat, n: nat)
    requires i + 4 * n <= |a| && j + 4 * n <= |b| && a[i..i + 4 * n] == b[j..j + 4 * n]
    ensures IndexAt(a, i, n) == IndexAt(b, j, n)
  {
    if n > 0 {
      var m := 4 * (n - 1);
      assert a[i..i + m] == a[i..i + 4 * n][..m] && b[j..j + m] == b[j..j + 4 * n][..m];
      SameIndex(a, i, b, j, n - 1);
      assert a[i + m..i + m + 4] == a[i..i + 4 * n][m..] && b[j + m..j + m + 4] == b[j..j + 4 * n][m..];
      SameInt(a, i + m, b, j + m);
    }
  }

  // After slot k was written.
  predicate WroteSlot(before: Memory, after: Memory, at: nat, k: nat, v: nat) {
    v < INT_LIMIT && Wrote(before, after, at + 4 * k, IntBytes(v))
  }

  lemma SlotRead(mem: Memory, after: Memory, at: nat, k: nat, v: nat, i: nat)
    requires WroteSlot(mem, after, at, k, v) && at + 4 * i + 4 <= |mem|
    ensures IntAt(after, at + 4 * i) == if i == k then v else IntAt(mem, at + 4 * i)
  {
    var o, z := at + 4 * i, at + 4 * k + 4;
    if i < k {
      SliceOfPrefix(after, at + 4 * k, o);
      SliceOfPrefix(mem, at + 4 * k, o);
      SameInt(after, o, mem, o);
    } else if i == k {
      assert IntBytes(v)[0..4] == IntBytes(v);
      SameInt(after, o, IntBytes(v), 0);
    } else {
      assert after[o..o + 4] == after[z..][o - z..o - z + 4];
      assert mem[o..o + 4] == mem[z..][o - z..o - z + 4];
      SameInt(after, o, mem, o);
    }
  }

  lemma SliceOfPrefix(a: Memory, n: nat, o: nat)
    requires o + 4 <= n <= |a|
    ensures a[o..o + 4] == a[..n][o..o + 4]
  {}

  lemma SlotWritten(mem: Memory, after: Memory, at: nat, n: nat, k: nat, v: nat)
    requires WroteSlot(mem, after, at, k, v) && k < n && at + 4 * n <= |mem|
    ensures |after| == |mem| && IndexAt(after, at, n) == IndexAt(mem, at, n)[k := v]
    ensures after[..at] == mem[..at]
  {
    assert after[..at] == after[..at + 4 * k][..at] && mem[..at] == mem[..at + 4 * k][..at];
    forall i | 0 <= i < n ensures IndexAt(after, at, n)[i] == IndexAt(mem, at, n)[k := v][i] {
      SlotRead(mem, after, at, k, v, i);
      IndexSlot(mem, at, n, i);
      IndexSlot(after, at, n, i);
    }
  }

  /** Storing the offset of entry i in slot i disturbs neither the entries nor the
      slots before. */
  lemma IndexStep(p: Platform, mem: Memory, after: Memory, first: nat, offs: seq<nat>, end: nat, i: nat)
    requires p.Valid() && first <= end && Tiled(p, mem, first, offs, end) && i < |offs|
    requires end + 4 * |offs| <= |mem| && IndexAt(mem, end, i) == offs[..i]
    requires WroteSlot(mem, after, end, i, offs[i])
    ensures |after| == |mem| && after[..end] == mem[..end]
    ensures Tiled(p, after, first, offs, end) && IndexAt(after, end, i + 1) == offs[..i + 1]
  {
    SlotWritten(mem, after, end, i + 1, i, offs[i]);
    TilesPreserved(p, mem, after, first, offs, end);
  }

  lemma FirstTile(p: Platform, mem: Memory, first: nat, offs: seq<nat>, end: nat)
    requires p.Valid() && Tiled(p, mem, first, offs, end)
    ensures first == if 0 < |offs| then offs[0] else end
  {}

  // A request that has grown is otherwise the same.
  lemma GrownMemory(was: Memory, mem: Memory, at: nat, n: nat)
    requires was <= mem && at + 4 * n <= |was|
    ensures mem[..at] == was[..at] && IndexAt(mem, at, n) == IndexAt(was, at, n)
  {
    SameIndex(was, at, mem, at, n);
  }

  // Entries kept, and one more behind them.
  lemma TilesExtended(p: Platform, a: Memory, b: Memory, first: nat, offs: seq<nat>, end: nat, e: Memory)
    requires p.Valid() && first <= end <= |a| && Tiled(p, a, first, offs, end)
    requires IsEntry(p, e) && end + |e| <= |b| && a[..end] == b[..end] && b[end..end + |e|] == e
    ensures Tiled(p, b, first, offs + [end], end + |e|)
  {
    TilesPreserved(p, a, b, first, offs, end);
    OneMoreTile(p, b, first, offs, end, e);
  }

  // The entries are the same in both.
  lemma TilesPreserved(p: Platform, a: Memory, b: Memory, first: nat, offs: seq<nat>, end: nat)
    requires p.Valid() && first <= end <= |a| && Tiled(p, a, first, offs, end) && end <= |b| && a[..end] == b[..end]
    ensures Tiled(p, b, first, offs, end)
  {
    assert a[first..end] == a[..end][first..] && b[first..end] == b[..end][first..];
    SameTiles(p, a, b, first, offs, end);
  }

  // The index with one more slot.
  lemma LongerIndex(mem: Memory, longer: Memory, at: nat, n: nat, v: nat)
    requires WroteSlot(mem, longer, at, n, v)
    ensures |longer| == |mem| && longer[..at] == mem[..at] && IndexAt(longer, at, n + 1) == IndexAt(mem, at, n) + [v]
  {
    SlotWritten(mem, longer, at, n + 1, n, v);
    assert IndexAt(mem, at, n + 1)[n := v] == IndexAt(mem, at, n) + [v];
  }

  // The index moved up, an entry in its place.
  lemma MovedIndex(mem: Memory, moved: Memory, after: Memory, at: nat, n: nat, e: Memory)
    requires at + 4 * n <= |mem|
    requires Wrote(mem, moved, at + |e|, mem[at..at + 4 * n]) && Wrote(moved, after, at, e)
    ensures |after| == |mem| && at + |e| + 4 * n <= |mem| && after[..at] == mem[..at] && after[at..at + |e|] == e
    ensures IndexAt(after, at + |e|, n) == IndexAt(mem, at, n)
  {
    Overlay(mem, moved, after, at, 4 * n, e);
    SameIndex(mem, at, after, at + |e|, n);
  }

  // Moving a stretch up and putting e in its place.
  lemma Overlay(mem: Memory, moved: Memory, after: Memory, at: nat, len: nat, e: Memory)
    requires at + len <= |mem| && Wrote(mem, moved, at + |e|, mem[at..at + len]) && Wrote(moved, after, at, e)
    ensures |after| == |mem| && after[..at] == mem[..at] && after[at..at + |e|] == e
    ensures after[at + |e|..at + |e| + len] == mem[at..at + len]
  {
    var from := at + |e|;
    assert moved[..at] == moved[..from][..at] && mem[..at] == mem[..from][..at];
    assert after[from..from + len] == after[from..][..len];
    assert moved[from..from + len] == moved[from..][..len];
  }

  // ------------------------------------------------------------ the request

  // Entries, an index of n slots behind them, and a used size that covers both.
  ghost predicate IsIndexed(p: Platform, mem: Memory, first: nat, offs: seq<nat>, at: nat, n: nat, size: nat)
    requires p.Valid()
  {
    first <= at && at + 4 * n <= size < |mem| && Tiled(p, mem, first, offs, at)
  }

  lemma JoinKeepsIndexed(p: Platform, mem: Memory, after: Memory, first: nat, offs: seq<nat>, at: nat, n: nat,
                         size: nat, e: Memory)
    requires p.Valid() && IsIndexed(p, mem, first, offs, at, n, size) && IsEntry(p, e)
    requires |after| == |mem| && size + |e| + 4 < |mem| && after[..at] == mem[..at] && after[at..at + |e|] == e
    ensures IsIndexed(p, after, first, offs + [at], at + |e|, n + 1, size + |e| + 4)
  {
    TilesExtended(p, mem, after, first, offs, at, e);
  }

  class ArchReq {
    const p: Platform
    const first: nat // FIRST_FILE_INFO_ADDR, as an offset
    var mem: Memory // MfLen bytes
    var size: nat
    var count: nat
    var fileIndex: nat
    var files: nat
    ghost var offs: seq<nat> // where the entries are

    // While entries are being collected.
    ghost predicate Open()
      reads this
    {
      p.Valid() && first <= size < |mem| && Tiled(p, mem, first, offs, size) && count == |offs|
    }

    // With an index behind the entries.
    ghost predicate Indexed()
      reads this
    {
      p.Valid() && IsIndexed(p, mem, first, offs, fileIndex, files, size)
    }

    /** LOC_FILE_INDEX, as the offsets it holds. */
    ghost function Index(): seq<nat>
      requires Indexed()
      reads this
    {
      IndexAt(mem, fileIndex, files)
    }

    constructor (p: Platform, first: nat)
      requires p.Valid() && first < ARCHREQ_START
      ensures Open() && offs == [] && size == first && files == 0 && this.p == p && this.first == first
    {
      this.p, this.first := p, first;
      mem, size, count, fileIndex, files, offs := seq(ARCHREQ_START, _ => 0), first, 0, 0, 0, [];
    }

    /** ArchReqGrow until there is room. */
    method EnsureRoom(n: nat)
      requires |mem| > 0
      modifies this`mem
      ensures size + n < |mem| && old(mem) <= mem
    {
      while size + n >= |mem|
        invariant |mem| > 0 && old(mem) <= mem
        decreases size + n - |mem|
      {
        mem := mem + seq(if |mem| < ARCHREQ_INCR then |mem| else ARCHREQ_INCR, _ => 0);
      }
    }

    /** Copy an entry behind the last one. */
    method Append(e: Memory)
      requires Open() && IsEntry(p, e)
      modifies this
      ensures Open() && offs == old(offs) + [old(size)] && size == old(size) + |e|
      ensures mem[old(size)..size] == e && mem[..old(size)] == old(mem)[..old(size)] && files == old(files)
    {
      ghost var was := mem;
      EnsureRoom(|e|);
      GrownMemory(was, mem, size, 0);
      mem := Memmove(mem, size, e);
      TilesExtended(p, was, mem, first, offs, size, e);
      offs := offs + [size];
      count := count + 1;
      size := size + |e|;
    }

    // The offsets of the first i entries are stored, and the entries are untouched.
    ghost predicate Filled(i: nat)
      reads this
    {
      && p.Valid() && first <= fileIndex < INT_LIMIT && i <= |offs| && fileIndex + 4 * |offs| <= |mem|
      && Tiled(p, mem, first, offs, fileIndex) && IndexAt(mem, fileIndex, i) == offs[..i]
    }

    // Where the walk is after i entries.
    ghost function WalkAt(i: nat): nat
      reads this
    {
      if i < |offs| then offs[i] else fileIndex
    }

    // Store one offset and step over its entry.
    method FillSlot(fi: nat, i: nat) returns (fic: nat)
      requires Filled(i) && i < |offs| && fi == WalkAt(i)
      modifies this`mem
      ensures Filled(i + 1) && fic == WalkAt(i + 1)
      ensures |mem| == |old(mem)| && mem[..fileIndex] == old(mem)[..fileIndex]
    {
      NextTile(p, mem, first, offs, fileIndex, i);
      TilesAreApart(p, mem, first, offs, fileIndex, i);
      fic := fi + FiSize(p, mem, fi);
      var after := Memmove(mem, fileIndex + 4 * i, IntBytes(fi));
      IndexStep(p, mem, after, first, offs, fileIndex, i);
      mem := after;
    }

    // Walk the entries and store their offsets.
    method FillIndex()
      requires p.Valid() && first <= fileIndex < INT_LIMIT && count == |offs|
      requires fileIndex + 4 * count <= |mem| && Tiled(p, mem, first, offs, fileIndex)
      modifies this`mem
      ensures |mem| == |old(mem)| && mem[..fileIndex] == old(mem)[..fileIndex]
      ensures Tiled(p, mem, first, offs, fileIndex) && IndexAt(mem, fileIndex, count) == offs
    {
      var fic := first;
      FirstTile(p, mem, first, offs, fileIndex);
      for i := 0 to count
        invariant |mem| == |old(mem)| && mem[..fileIndex] == old(mem)[..fileIndex]
        invariant Filled(i) && fic == WalkAt(i)
      {
        fic := FillSlot(fic, i);
      }
      assert offs[..count] == offs;
    }

    /** queueArchReq: the index is built behind the entries, in the order of the
        walk. */
    method BuildIndex()
      requires Open() && size < INT_LIMIT
      modifies this
      ensures Indexed() && Index() == offs && offs == old(offs)
      ensures fileIndex == old(size) && files == |offs| && mem[..fileIndex] == old(mem)[..fileIndex]
    {
      ghost var was := mem;
      fileIndex := size;
      EnsureRoom(4 * count);
      TilesPreserved(p, was, mem, first, offs, fileIndex);
      size := size + 4 * count;
      FillIndex();
      files := count;
    }

    method EnsureJoinRoom(n: nat)
      requires Indexed()
      modifies this`mem
      ensures Indexed() && size + n < |mem| && Index() == old(Index())
      ensures mem[..fileIndex] == old(mem)[..fileIndex]
    {
      ghost var was := mem;
      EnsureRoom(n);
      GrownMemory(was, mem, fileIndex, files);
      TilesPreserved(p, was, mem, first, offs, fileIndex);
    }

    /** addJoinFile: the join entry takes the place of the index, which moves up and
        gets one more slot. */
    method AddJoin(e: Memory)
      requires Indexed() && IsEntry(p, e) && fileIndex < INT_LIMIT
      modifies this
      ensures Indexed() && Index() == old(Index()) + [old(fileIndex)] && offs == old(offs) + [old(fileIndex)]
      ensures fileIndex == old(fileIndex) + |e| && mem[old(fileIndex)..fileIndex] == e
      ensures mem[..old(fileIndex)] == old(mem)[..old(fileIndex)] && files == old(files) + 1
    {
      EnsureJoinRoom(|e| + 4);
      PlaceJoin(e);
    }

    method PlaceJoin(e: Memory)
      requires Indexed() && IsEntry(p, e) && fileIndex < INT_LIMIT && size + |e| + 4 < |mem|
      modifies this
      ensures Indexed() && Index() == old(Index()) + [old(fileIndex)] && offs == old(offs) + [old(fileIndex)]
      ensures fileIndex == old(fileIndex) + |e| && mem[old(fileIndex)..fileIndex] == e
      ensures mem[..old(fileIndex)] == old(mem)[..old(fileIndex)] && files == old(files) + 1
    {
      var at, n := fileIndex, files;
      var after := MoveIndexUp(mem, at, n, e);
      JoinKeepsIndexed(p, mem, after, first, offs, at, n, size, e);
      mem, size, files, fileIndex, offs := after, size + |e| + 4, n + 1, at + |e|, offs + [at];
    }

    /** Store an order of the entries in the index. */
    method StoreIndex(order: seq<nat>)
      requires Indexed() && |order| == files && forall i | 0 <= i < |order| :: order[i] < INT_LIMIT
      modifies this`mem
      ensures Indexed() && Index() == order && mem[..fileIndex] == old(mem)[..fileIndex]
    {
      var after := StoreSlots(mem, fileIndex, order);
      TilesPreserved(p, mem, after, first, offs, fileIndex);
      mem := after;
    }

    /** pruneArchReq's first half: the joins, which are the first sel of the index, are
        dropped and the index moves back to where the first of them is. */
    method PruneJoins(sel: nat, ghost m: nat)
      requires Indexed() && 0 < sel <= files && m + sel == |offs| && fileIndex < INT_LIMIT
      requires multiset(Index()[..sel]) == multiset(offs[m..])
      modifies this
      ensures Indexed() && Index() == old(Index())[sel..] && offs == old(offs)[..m] && files == old(files) - sel
      ensures fileIndex == old(offs)[m] <= old(fileIndex) && mem[..fileIndex] == old(mem)[..fileIndex]
    {
      LastEntries(p, mem, first, offs, fileIndex, m, Index()[..sel]);
      var after, to := MoveIndexDown(mem, fileIndex, files, sel);
      DropKeepsIndexed(p, mem, after, first, offs, fileIndex, files, size, m, sel);
      mem, files, fileIndex, offs := after, files - sel, to, offs[..m];
    }
  }

  ghost function Total(joins: seq<Memory>): nat {
    if joins == [] then 0 else |joins[0]| + Total(joins[1..])
  }

  // Add join entries one after the other; their offsets.
  method AddJoins(ar: ArchReq, joins: seq<Memory>) returns (js: seq<nat>)
    requires ar.Indexed() && ar.fileIndex + Total(joins) < INT_LIMIT
    requires forall k | 0 <= k < |joins| :: IsEntry(ar.p, joins[k])
    modifies ar
    ensures ar.Indexed() && ar.offs == old(ar.offs) + js && ar.files == old(ar.files) + |js| && |js| == |joins|
    ensures ar.fileIndex == old(ar.fileIndex) + Total(joins) && (js != [] ==> js[0] == old(ar.fileIndex))
    ensures Same(ar.mem, old(ar.mem), old(ar.fileIndex))
    decreases |joins|
  {
    if joins == [] {
      return [];
    }
    var at := ar.fileIndex;
    ghost var was, offs := ar.mem, ar.offs;
    ar.AddJoin(joins[0]);
    ghost var one := ar.mem;
    js := AddJoins(ar, joins[1..]);
    SameThrough(ar.mem, one, was, at + |joins[0]|, at);
    OneBefore(offs, at, js);
    js := [at] + js;
  }

  lemma OneBefore(offs: seq<nat>, at: nat, js: seq<nat>)
    ensures offs + [at] + js == offs + ([at] + js)
  {}

  lemma SameThrough(a: Memory, b: Memory, c: Memory, n: nat, k: nat)
    requires Same(a, b, n) && k <= n && Same(b, c, k)
    ensures Same(a, c, k)
  {
    SameShorter(a, b, n, k);
  }

  predicate Same(a: Memory, b: Memory, n: nat) {
    n <= |a| && n <= |b| && a[..n] == b[..n]
  }

  lemma SameShorter(a: Memory, b: Memory, n: nat, k: nat)
    requires Same(a, b, n) && k <= n
    ensures Same(a, b, k)
  {
    assert a[..k] == a[..n][..k] && b[..k] == b[..n][..k];
  }

  /** Composing with joins and pruning them again restores the request: the same
      entries, the index where it was, holding the chosen order of the files. */
  method ComposeThenPrune(ar: ArchReq, joins: seq<Memory>, order: seq<nat>)
    requires ar.Indexed() && joins != [] && ar.fileIndex + Total(joins) < INT_LIMIT
    requires forall k | 0 <= k < |joins| :: IsEntry(ar.p, joins[k])
    requires |order| == ar.files && forall i | 0 <= i < |order| :: order[i] < INT_LIMIT
    modifies ar
    ensures ar.Indexed() && ar.offs == old(ar.offs) && ar.fileIndex == old(ar.fileIndex) && ar.Index() == order
    ensures Same(ar.mem, old(ar.mem), ar.fileIndex)
  {
    ghost var m := |ar.offs|;
    ghost var at := ar.fileIndex;
    var js := AddJoins(ar, joins);
    ghost var joined := ar.mem;
    JoinOffsets(ar.p, ar.mem, ar.first, ar.offs, ar.fileIndex, m, js);
    var placed := js + order;
    ar.StoreIndex(placed);
    SameShorter(ar.mem, joined, ar.fileIndex, at);
    assert placed[..|js|] == js && placed[|js|..] == order;
    ar.PruneJoins(|js|, m);
  }

  // The offsets of the entries behind the first m.
  lemma JoinOffsets(p: Platform, mem: Memory, first: nat, offs: seq<nat>, end: nat, m: nat, js: seq<nat>)
    requires p.Valid() && Tiled(p, mem, first, offs, end) && end < INT_LIMIT
    requires m <= |offs| && offs[m..] == js
    ensures forall k | 0 <= k < |js| :: js[k] < INT_LIMIT
  {
    forall k | 0 <= k < |js| ensures js[k] < INT_LIMIT {
      TilesAreApart(p, mem, first, offs, end, m + k);
    }
  }

  lemma DropKeepsIndexed(p: Platform, mem: Memory, after: Memory, first: nat, offs: seq<nat>, at: nat, n: nat,
                         size: nat, m: nat, sel: nat)
    requires p.Valid() && IsIndexed(p, mem, first, offs, at, n, size) && m < |offs| && sel <= n
    requires |after| == |mem| && offs[m] <= at && after[..offs[m]] == mem[..offs[m]]
    ensures IsIndexed(p, after, first, offs[..m], offs[m], n - sel, size)
  {
    TilesAreApart(p, mem, first, offs, at, m);
    FewerTiles(p, mem, first, offs, at, m);
    TilesPreserved(p, mem, after, first, offs[..m], offs[m]);
  }

  // Write slot after slot.
  method StoreSlots(mem: Memory, at: nat, order: seq<nat>) returns (after: Memory)
    requires at + 4 * |order| <= |mem| && forall i | 0 <= i < |order| :: order[i] < INT_LIMIT
    ensures |after| == |mem| && after[..at] == mem[..at] && IndexAt(after, at, |order|) == order
  {
    after := mem;
    for i := 0 to |order|
      invariant |after| == |mem| && after[..at] == mem[..at] && IndexAt(after, at, i) == order[..i]
    {
      var next := Memmove(after, at + 4 * i, IntBytes(order[i]));
      LongerIndex(after, next, at, i, order[i]);
      assert order[..i + 1] == order[..i] + [order[i]];
      after := next;
    }
    assert order[..|order|] == order;
  }

  // pruneArchReq: drop the first sel slots and move the rest to the least of them.
  method MoveIndexDown(mem: Memory, at: nat, n: nat, sel: nat) returns (after: Memory, to: nat)
    requires 0 < sel <= n && at + 4 * n <= |mem|
    requires forall v <- IndexAt(mem, at, n)[..sel] :: v <= at && v < INT_LIMIT
    ensures to in IndexAt(mem, at, n)[..sel] && forall v <- IndexAt(mem, at, n)[..sel] :: to <= v
    ensures |after| == |mem| && to <= at && after[..to] == mem[..to]
    ensures IndexAt(after, to, n - sel) == IndexAt(mem, at, n)[sel..]
  {
    IndexPrefix(mem, at, n, sel);
    to := LeastSlot(mem, at, sel);
    after := Memmove(mem, to, mem[at + 4 * sel..at + 4 * n]);
    IndexMoved(mem, after, at, n, sel, to);
  }

  lemma {:induction false} IndexPrefix(mem: Memory, at: nat, n: nat, k: nat)
    requires k <= n && at + 4 * n <= |mem|
    ensures IndexAt(mem, at, n)[..k] == IndexAt(mem, at, k)
  {
    if k < n { IndexPrefix(mem, at, n - 1, k); }
  }

  lemma IndexSuffix(mem: Memory, at: nat, n: nat, k: nat)
    requires k <= n && at + 4 * n <= |mem|
    ensures IndexAt(mem, at, n)[k..] == IndexAt(mem, at + 4 * k, n - k)
  {
    forall i | 0 <= i < n - k ensures IndexAt(mem, at, n)[k..][i] == IndexAt(mem, at + 4 * k, n - k)[i] {
      IndexSlot(mem, at, n, k + i);
      IndexSlot(mem, at + 4 * k, n - k, i);
    }
  }

  // The slots from k on, moved to another place.
  lemma IndexMoved(mem: Memory, after: Memory, at: nat, n: nat, k: nat, to: nat)
    requires k <= n && at + 4 * n <= |mem| && Wrote(mem, after, to, mem[at + 4 * k..at + 4 * n])
    ensures IndexAt(after, to, n - k) == IndexAt(mem, at, n)[k..] && after[..to] == mem[..to] && |after| == |mem|
  {
    assert at + 4 * k + 4 * (n - k) == at + 4 * n;
    SlotsMoved(mem, after, at + 4 * k, n - k, to);
    IndexSuffix(mem, at, n, k);
  }

  lemma SlotsMoved(mem: Memory, after: Memory, from: nat, m: nat, to: nat)
    requires from + 4 * m <= |mem| && Wrote(mem, after, to, mem[from..from + 4 * m])
    ensures to + 4 * m <= |after| && IndexAt(after, to, m) == IndexAt(mem, from, m)
  {
    SameIndex(mem, from, after, to, m);
  }

  // Entries appended last lie at the greatest offsets.
  lemma LastEntries(p: Platform, mem: Memory, first: nat, offs: seq<nat>, end: nat, m: nat, some: seq<nat>)
    requires p.Valid() && Tiled(p, mem, first, offs, end) && m < |offs| && multiset(some) == multiset(offs[m..])
    ensures offs[m] in some && offs[m] <= end && forall v <- some :: offs[m] <= v <= end
  {
    TilesAreApart(p, mem, first, offs, end, m);
    assert offs[m..][0] == offs[m] && offs[m] in multiset(some);
    forall v | v in some ensures offs[m] <= v <= end {
      assert v in multiset(offs[m..]);
      var k :| 0 <= k < |offs[m..]| && offs[m..][k] == v;
      TilesAreApart(p, mem, first, offs, end, m + k);
    }
  }

  // The least of the first n slots.
  method LeastSlot(mem: Memory, at: nat, n: nat) returns (least: nat)
    requires 0 < n && at + 4 * n <= |mem| && forall v <- IndexAt(mem, at, n) :: v < INT_LIMIT
    ensures least in IndexAt(mem, at, n) && forall v <- IndexAt(mem, at, n) :: least <= v
  {
    least := INT_LIMIT - 1;
    ghost var index := IndexAt(mem, at, n);
    for i := 0 to n
      invariant i > 0 ==> least in index
      invariant i == 0 ==> least == INT_LIMIT - 1
      invariant forall k | 0 <= k < i :: least <= index[k]
    {
      IndexSlot(mem, at, n, i);
      assert index[i] in index;
      if IntAt(mem, at + 4 * i) <= least {
        least := IntAt(mem, at + 4 * i);
      }
    }
  }

  // addJoinFile's three writes: one more slot, the index up, the entry in its place.
  method MoveIndexUp(mem: Memory, at: nat, n: nat, e: Memory) returns (after: Memory)
    requires at + |e| + 4 * n + 4 <= |mem| && at < INT_LIMIT
    ensures |after| == |mem| && after[..at] == mem[..at] && after[at..at + |e|] == e
    ensures IndexAt(after, at + |e|, n + 1) == IndexAt(mem, at, n) + [at]
  {
    var longer := Memmove(mem, at + 4 * n, IntBytes(at));
    var moved := Memmove(longer, at + |e|, longer[at..at + 4 * (n + 1)]);
    after := Memmove(moved, at, e);
    LongerIndex(mem, longer, at, n, at);
    MovedIndex(longer, moved, after, at, n + 1, e);
  }
}
