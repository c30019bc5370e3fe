/**
 The client's page cache: a table of entries bounded by a byte cap, with
 least-recently-used eviction on insert.
 */
module Cache {
  import opened Bytes
  import opened Wrappers

  type Url = seq<byte>
  type Etag = seq<byte>
  type Body = seq<byte>

  /** One row; times and ages in whole seconds. */
  datatype Entry = Entry(etag: Etag, body: Body, fetchedAt: nat, lastUsed: nat, size: nat, maxAge: nat)

  datatype Hit = Hit(etag: Etag, body: Body, fetchedAt: nat, maxAge: nat)

  type Table = map<Url, Entry>

  const I64_LIMIT: int := 0x8000_0000_0000_0000
  const U64_LIMIT: int := 0x1_0000_0000_0000_0000

  /** Clock ticks in a second: the system clock is finer than the stored times. */
  const TICKS: nat := 1_000_000_000

  function Seconds(now: nat): nat {
    now / TICKS
  }

  /** `cap_bytes as i64`: caps from 2^63 on come out negative. */
  function SignedCap(capBytes: nat): int
    requires capBytes < U64_LIMIT
  {
    if capBytes < I64_LIMIT then capBytes else capBytes - U64_LIMIT
  }

  predicate IsFresh(hit: Hit, now: nat) {
    hit.fetchedAt * TICKS <= now && now - hit.fetchedAt * TICKS < hit.maxAge * TICKS
  }

  /** The stored sizes together. */
  ghost function Total(t: Table): nat {
    if t == map[] then 0
    else
      var url :| url in t;
      t[url].size + Total(t - {url})
  }

  lemma {:induction false} TotalRemove(t: Table, url: Url)
    requires url in t
    ensures Total(t) == t[url].size + Total(t - {url})
    decreases |t|
  {
    var first :| first in t && Total(t) == t[first].size + Total(t - {first});
    if first != url {
      TotalRemove(t - {first}, url);
      TotalRemove(t - {url}, first);
      assert t - {first} - {url} == t - {url} - {first};
    }
  }

  // ----- Eviction, declaratively -----

  /** `after` keeps rows of `before` as they are. */
  ghost predicate Survivors(before: Table, after: Table) {
    forall url :: url in after ==> url in before && after[url] == before[url]
  }

  ghost predicate Evicted(before: Table, after: Table, url: Url) {
    url in before && url !in after
  }

  /**
   The rows that left are the shortest least-recently-used run, in some order
   of equal times, that brings the total down to `cap`; `kept` never leaves.
   */
  ghost predicate MinimalLru(before: Table, after: Table, kept: Url, cap: int) {
    && kept in after && Survivors(before, after)
    && (Total(after) <= cap || after.Keys == {kept})
    && (forall v, s :: Evicted(before, after, v) && s in after && s != kept ==>
          before[v].lastUsed <= before[s].lastUsed)
    && (after != before ==>
          exists last :: Evicted(before, after, last) && Total(after) + before[last].size > cap
            && forall v :: Evicted(before, after, v) ==> before[v].lastUsed <= before[last].lastUsed)
  }

  /** The bound every operation keeps. */
  ghost predicate WithinCap(t: Table, cap: int) {
    Total(t) <= cap || |t| <= 1
  }

  predicate SizesRecorded(t: Table) {
    forall url :: url in t ==> t[url].size == |t[url].body|
  }

  /** The row an insert writes. */
  function NewEntry(etag: Etag, body: Body, serverMaxAge: nat, maxTtl: nat, now: nat): Entry {
    Entry(etag, body, Seconds(now), Seconds(now), |body|, if serverMaxAge < maxTtl then serverMaxAge else maxTtl)
  }

  class Cache {
    var entries: Table
    const capBytes: nat
    const maxTtl: nat

    constructor (capBytes: nat, maxTtl: nat)
      requires capBytes < U64_LIMIT
      ensures entries == map[] && this.capBytes == capBytes && this.maxTtl == maxTtl && Valid()
    {
      entries := map[];
      this.capBytes, this.maxTtl := capBytes, maxTtl;
    }

    ghost predicate Valid()
      reads this
    {
      capBytes < U64_LIMIT && WithinCap(entries, SignedCap(capBytes)) && SizesRecorded(entries)
    }

    method Lookup(url: Url) returns (hit: Option<Hit>)
      ensures hit == if url in entries then
                       Some(Hit(entries[url].etag, entries[url].body, entries[url].fetchedAt, entries[url].maxAge))
                     else None
    {
      if url !in entries {
        return None;
      }
      var e := entries[url];
      hit := Some(Hit(e.etag, e.body, e.fetchedAt, e.maxAge));
    }

    /** A negative age stores nothing and removes nothing. */
    method Insert(url: Url, etag: Etag, body: Body, serverMaxAge: int, now: nat)
      requires Valid()
      modifies this`entries
      ensures Valid()
      ensures serverMaxAge < 0 ==> entries == old(entries)
      ensures serverMaxAge >= 0 ==>
                MinimalLru(old(entries)[url := NewEntry(etag, body, serverMaxAge, maxTtl, now)],
                           entries, url, SignedCap(capBytes))
      ensures serverMaxAge >= 0 ==>
                var second, age := now / 1_000_000_000, if serverMaxAge < maxTtl then serverMaxAge else maxTtl;
                url in entries && entries[url] == Entry(etag, body, second, second, |body|, age)
      ensures serverMaxAge >= 0 && capBytes < 0x8000_0000_0000_0000 ==>
                var wanted := old(entries)[url := entries[url]];
                && (Total(entries) <= capBytes || entries.Keys == {url})
                && (Total(wanted) <= capBytes ==> entries == wanted)
      ensures serverMaxAge >= 0 && capBytes >= 0x8000_0000_0000_0000 ==> entries.Keys == {url}
    {
      if serverMaxAge < 0 {
        return;
      }
      entries := entries[url := NewEntry(etag, body, serverMaxAge, maxTtl, now)];
      ghost var before := entries;
      var cap := SignedCap(capBytes);
      var total := SumSizes(entries);
      if total > cap {
        EvictDownTo(url, total - cap, cap);
      }
      LruWithinCap(before, entries, url, cap);
      if Total(before) <= cap {
        NoNeedlessEviction(before, entries, url, cap);
      }
    }

    method EvictDownTo(url: Url, excess: int, ghost cap: int)
      requires url in entries && excess > 0 && excess == Total(entries) - cap
      modifies this`entries
      ensures MinimalLru(old(entries), entries, url, cap)
    {
      var over := excess;
      var victims := ByLastUsed(entries);
      ghost var before := entries;
      ghost var done, last: nat := 0, 0;
      NoneEvicted(before, victims, url);
      hide *;
      for i := 0 to |victims|
        invariant over == Total(entries) - cap
        invariant done == i && EvictedUpTo(before, entries, victims, i, url)
        invariant entries == before ==> over > 0
        invariant entries != before ==> last < i && Evicted(before, entries, victims[last])
        invariant entries != before ==> over + before[victims[last]].size > 0
        invariant entries != before ==> forall j :: last < j < i ==> victims[j] == url
      {
        if over <= 0 {
          break;
        }
        var victim := victims[i];
        EvictStep(before, entries, victims, i, url);
        done := i + 1;
        if victim == url {
          continue;
        }
        TotalRemove(entries, victim);
        over := over - entries[victim].size;
        entries := entries - {victim};
        last := i;
      }
      RunIsMinimal(before, entries, victims, done, last, url, cap);
    }

    method TouchFresh(url: Url, now: nat)
      requires Valid()
      modifies this`entries
      ensures Valid()
      ensures entries == Refreshed(old(entries), url, now)
      ensures entries.Keys == old(entries).Keys
      ensures forall u :: u in entries && u != url ==> entries[u] == old(entries)[u]
      ensures url in entries ==>
                var was, second := old(entries)[url], now / 1_000_000_000;
                entries[url] == Entry(was.etag, was.body, second, second, was.size, was.maxAge)
    {
      ghost var before := entries;
      entries := Refreshed(entries, url, now);
      TotalUpdate(before, url, entries);
    }

    method TouchLastUsed(url: Url, now: nat)
      requires Valid()
      modifies this`entries
      ensures Valid()
      ensures entries == Used(old(entries), url, now)
      ensures entries.Keys == old(entries).Keys
      ensures forall u :: u in entries && u != url ==> entries[u] == old(entries)[u]
      ensures url in entries ==>
                var was := old(entries)[url];
                entries[url] == Entry(was.etag, was.body, was.fetchedAt, now / 1_000_000_000, was.size, was.maxAge)
    {
      ghost var before := entries;
      entries := Used(entries, url, now);
      TotalUpdate(before, url, entries);
    }

    method Delete(url: Url)
      requires Valid()
      modifies this`entries
      ensures Valid() && entries == old(entries) - {url}
    {
      FewerRows(entries, url);
      entries := entries - {url};
    }

    method Clear()
      requires capBytes < U64_LIMIT
      modifies this`entries
      ensures Valid() && entries == map[]
    {
      entries := map[];
    }
  }

  /** `UPDATE … WHERE url = ?`: nothing happens when there is no such row. */
  function Refreshed(t: Table, url: Url, now: nat): Table {
    if url in t then t[url := t[url].(fetchedAt := Seconds(now), lastUsed := Seconds(now))] else t
  }

  function Used(t: Table, url: Url, now: nat): Table {
    if url in t then t[url := t[url].(lastUsed := Seconds(now))] else t
  }

  /** A row just served outlives, at the next insert, every row used in an earlier second. */
  lemma JustServedOutlives(t: Table, served: Url, now: nat, inserted: Url, e: Entry, after: Table, cap: int, other: Url)
    requires served in t && other in t && served != inserted && other != inserted
    requires t[other].lastUsed < now / 1_000_000_000 && other != served
    requires MinimalLru(Used(t, served, now)[inserted := e], after, inserted, cap)
    ensures other in after ==> served in after
  {
    var before := Used(t, served, now)[inserted := e];
    assert before[served].lastUsed == now / 1_000_000_000 && before[other].lastUsed == t[other].lastUsed;
    if served !in after && other in after {
      assert Evicted(before, after, served);
    }
  }

  /** A row rewritten at its old size leaves the total. */
  lemma TotalUpdate(t: Table, url: Url, u: Table)
    requires url in t ==> url in u && u == t[url := u[url]] && u[url].size == t[url].size
    requires url !in t ==> u == t
    ensures Total(u) == Total(t) && |u| == |t|
  {
    if url in t {
      TotalRemove(t, url);
      TotalRemove(u, url);
      assert t - {url} == u - {url};
      assert t.Keys == u.Keys;
    }
  }

  method SumSizes(t: Table) returns (sum: nat)
    ensures sum == Total(t)
  {
    sum := 0;
    var left := t;
    while left != map[]
      invariant sum + Total(left) == Total(t)
      decreases |left|
    {
      var url :| url in left;
      TotalRemove(left, url);
      sum := sum + left[url].size;
      left := left - {url};
    }
  }

  /** `ORDER BY last_used ASC`; rows of equal time come in any order. */
  method ByLastUsed(t: Table) returns (rows: seq<Url>)
    ensures Sorted(t, rows)
  {
    rows := [];
    var left := t.Keys;
    while left != {}
      invariant forall url :: url in t <==> url in rows || url in left
      invariant forall i :: 0 <= i < |rows| ==> rows[i] !in left
      invariant forall i, j :: 0 <= i < j < |rows| ==> rows[i] != rows[j] && t[rows[i]].lastUsed <= t[rows[j]].lastUsed
      invariant forall i, url :: 0 <= i < |rows| && url in left ==> t[rows[i]].lastUsed <= t[url].lastUsed
      decreases left
    {
      ghost var some := Oldest(t, left);
      var oldest :| oldest in left && forall url :: url in left ==> t[oldest].lastUsed <= t[url].lastUsed;
      rows := rows + [oldest];
      left := left - {oldest};
    }
  }

  lemma {:induction false} Oldest(t: Table, keys: set<Url>) returns (oldest: Url)
    requires keys <= t.Keys && keys != {}
    ensures oldest in keys && forall url :: url in keys ==> t[oldest].lastUsed <= t[url].lastUsed
  {
    oldest :| oldest in keys;
    if keys != {oldest} {
      var other := Oldest(t, keys - {oldest});
      if t[other].lastUsed <= t[oldest].lastUsed {
        oldest := other;
      }
    }
  }

  lemma FewerRows(t: Table, url: Url)
    ensures Total(t - {url}) <= Total(t) && |t - {url}| <= |t|
  {
    if url in t {
      TotalRemove(t, url);
      assert (t - {url}).Keys == t.Keys - {url};
    } else {
      assert t - {url} == t;
    }
  }

  ghost predicate Sorted(t: Table, rows: seq<Url>) {
    && (forall url :: url in rows <==> url in t)
    && (forall i, j :: 0 <= i < j < |rows| ==> rows[i] != rows[j])
    && (forall i, j :: 0 <= i < j < |rows| ==> t[rows[i]].lastUsed <= t[rows[j]].lastUsed)
  }

  /** Exactly the first `n` rows have left, `kept` aside. */
  ghost predicate EvictedUpTo(before: Table, after: Table, rows: seq<Url>, n: nat, kept: Url) {
    && n <= |rows| && Sorted(before, rows) && kept in after && Survivors(before, after)
    && (forall j :: 0 <= j < n ==> rows[j] == kept || rows[j] !in after)
    && (forall j :: n <= j < |rows| ==> rows[j] in after)
  }

  lemma NoneEvicted(before: Table, rows: seq<Url>, kept: Url)
    requires Sorted(before, rows) && kept in before
    ensures EvictedUpTo(before, before, rows, 0, kept)
  {
    assert forall j :: 0 <= j < |rows| ==> rows[j] in rows;
  }

  lemma EvictStep(before: Table, after: Table, rows: seq<Url>, n: nat, kept: Url)
    requires EvictedUpTo(before, after, rows, n, kept) && n < |rows|
    ensures rows[n] == kept ==> EvictedUpTo(before, after, rows, n + 1, kept)
    ensures rows[n] != kept ==>
              && rows[n] in after && rows[n] in before && before[rows[n]] == after[rows[n]]
              && EvictedUpTo(before, after - {rows[n]}, rows, n + 1, kept)
              && after - {rows[n]} != before
              && forall v :: Evicted(before, after - {rows[n]}, v) <==> Evicted(before, after, v) || v == rows[n]
  {
  }

  lemma RunIsMinimal(before: Table, after: Table, rows: seq<Url>, n: nat, last: nat, kept: Url, cap: int)
    requires EvictedUpTo(before, after, rows, n, kept)
    requires Total(after) <= cap || n == |rows|
    requires after != before ==>
               last < n && Evicted(before, after, rows[last]) && Total(after) + before[rows[last]].size > cap
               && (forall j :: last < j < n ==> rows[j] == kept)
    ensures MinimalLru(before, after, kept, cap)
  {
    hide Total, EvictedUpTo;
    EvictedEarlier(before, after, rows, n, kept);
    if after != before {
      EvictedNoLater(before, after, rows, n, last, kept);
    }
    if n == |rows| {
      AllOthersGone(before, after, rows, kept);
    }
    KeptIn(before, after, rows, n, kept);
  }

  lemma KeptIn(before: Table, after: Table, rows: seq<Url>, n: nat, kept: Url)
    requires EvictedUpTo(before, after, rows, n, kept)
    ensures kept in after && Survivors(before, after)
  {
  }

  lemma EvictedAt(before: Table, after: Table, rows: seq<Url>, n: nat, kept: Url, v: Url) returns (j: nat)
    requires EvictedUpTo(before, after, rows, n, kept) && Evicted(before, after, v)
    ensures j < n && rows[j] == v
  {
    assert v in rows;
    j :| 0 <= j < |rows| && rows[j] == v;
  }

  lemma SurvivorAt(before: Table, after: Table, rows: seq<Url>, n: nat, kept: Url, s: Url) returns (j: nat)
    requires EvictedUpTo(before, after, rows, n, kept) && s in after && s != kept
    ensures n <= j < |rows| && rows[j] == s
  {
    assert s in rows;
    j :| 0 <= j < |rows| && rows[j] == s;
  }

  lemma InOrder(t: Table, rows: seq<Url>, i: nat, j: nat)
    requires Sorted(t, rows) && i <= j < |rows|
    ensures rows[i] in t && rows[j] in t && t[rows[i]].lastUsed <= t[rows[j]].lastUsed
  {
    assert rows[i] in rows && rows[j] in rows;
  }

  lemma EvictedEarlier(before: Table, after: Table, rows: seq<Url>, n: nat, kept: Url)
    requires EvictedUpTo(before, after, rows, n, kept)
    ensures forall v, s :: Evicted(before, after, v) && s in after && s != kept ==>
              s in before && before[v].lastUsed <= before[s].lastUsed
  {
    forall v, s | Evicted(before, after, v) && s in after && s != kept
      ensures s in before && before[v].lastUsed <= before[s].lastUsed
    {
      var i := EvictedAt(before, after, rows, n, kept, v);
      var j := SurvivorAt(before, after, rows, n, kept, s);
      InOrder(before, rows, i, j);
    }
  }

  lemma EvictedNoLater(before: Table, after: Table, rows: seq<Url>, n: nat, last: nat, kept: Url)
    requires EvictedUpTo(before, after, rows, n, kept) && last < n && Evicted(before, after, rows[last])
    requires forall j :: last < j < n ==> rows[j] == kept
    ensures forall v :: Evicted(before, after, v) ==> before[v].lastUsed <= before[rows[last]].lastUsed
  {
    forall v | Evicted(before, after, v)
      ensures before[v].lastUsed <= before[rows[last]].lastUsed
    {
      var i := EvictedAt(before, after, rows, n, kept, v);
      InOrder(before, rows, i, last);
    }
  }

  lemma AllOthersGone(before: Table, after: Table, rows: seq<Url>, kept: Url)
    requires EvictedUpTo(before, after, rows, |rows|, kept)
    ensures after.Keys == {kept}
  {
    forall s | s in after
      ensures s == kept
    {
      assert s in rows;
    }
  }

  lemma LruWithinCap(before: Table, after: Table, kept: Url, cap: int)
    requires MinimalLru(before, after, kept, cap) && SizesRecorded(before)
    ensures WithinCap(after, cap) && SizesRecorded(after)
  {
    if after.Keys == {kept} {
      assert |after.Keys| == 1;
    }
  }

  // ----- What a minimal run means -----

  /** `part` is some of the rows of `whole`. */
  ghost predicate Part(part: Table, whole: Table) {
    forall url :: url in part ==> url in whole && part[url] == whole[url]
  }

  lemma {:induction false} PartTotal(part: Table, whole: Table)
    requires Part(part, whole)
    ensures Total(part) <= Total(whole)
  {
    if part != map[] {
      var url :| url in part;
      TotalRemove(part, url);
      TotalRemove(whole, url);
      hide Total;
      PartTotal(part - {url}, whole - {url});
    }
  }

  lemma PartWithoutRow(part: Table, whole: Table, url: Url)
    requires Part(part, whole) && url in whole && url !in part
    ensures Total(part) + whole[url].size <= Total(whole)
  {
    TotalRemove(whole, url);
    PartTotal(part, whole - {url});
  }

  /** Nothing leaves a table that fits. */
  lemma NoNeedlessEviction(before: Table, after: Table, kept: Url, cap: int)
    requires MinimalLru(before, after, kept, cap) && Total(before) <= cap
    ensures after == before
  {
    hide Total;
    if after != before {
      var last :| Evicted(before, after, last) && Total(after) + before[last].size > cap;
      PartWithoutRow(after, before, last);
    }
  }

  /** Another way to evict: it keeps `kept`, respects the order of use and fits. */
  ghost predicate AlsoFits(before: Table, other: Table, kept: Url, cap: int) {
    && kept in other && Survivors(before, other) && Total(other) <= cap
    && forall v, s :: Evicted(before, other, v) && s in other && s != kept ==> before[v].lastUsed <= before[s].lastUsed
  }

  /**
   The surviving table is the largest: when no two rows were used in the same
   second, whatever else fits and respects the order of use keeps no row that
   this eviction dropped.
   */
  lemma LargestSurvivor(before: Table, after: Table, other: Table, kept: Url, cap: int)
    requires MinimalLru(before, after, kept, cap) && AlsoFits(before, other, kept, cap)
    requires forall u, v :: u in before && v in before && u != kept && v != kept && u != v ==>
               before[u].lastUsed != before[v].lastUsed
    ensures other.Keys <= after.Keys
  {
    hide Total;
    if x :| x in other && x !in after {
      assert Evicted(before, after, x);
      var last :| Evicted(before, after, last) && Total(after) + before[last].size > cap
                  && forall v :: Evicted(before, after, v) ==> before[v].lastUsed <= before[last].lastUsed;
      assert last in other by {
        assert last !in other ==> Evicted(before, other, last);
      }
      forall s | s in after
        ensures s in other
      {
        assert s !in other ==> Evicted(before, other, s);
      }
      PartWithoutRow(after, other, last);
    }
  }
}
