/** `MemoryCache` of the app module: a put-if-absent front over the platform's
    size-bounded `LruCache`. The cache is modelled as the sequence of its
    entries from least to most recently used, with the running total of their
    sizes; `sizeOf` is the cache's size function. The library module's own
    memory cache is not part of this model; its loader reuses this class with
    an abstract size function. */
module MemoryCaching {
  import opened Common
  import opened Graphics

  datatype Entry<V> = Entry(key: string, value: V)

  /** No key occurs twice. */
  predicate DistinctKeys<V>(entries: seq<Entry<V>>) {
    forall i, j :: 0 <= i < j < |entries| ==> entries[i].key != entries[j].key
  }

  predicate HasKey<V>(entries: seq<Entry<V>>, key: string) {
    exists i :: 0 <= i < |entries| && entries[i].key == key
  }

  /** The value stored under `key`, if any (the first, should there be two). */
  function Lookup<V>(entries: seq<Entry<V>>, key: string): (r: Option<V>)
    ensures r.Some? <==> HasKey(entries, key)
    ensures r.Some? ==> exists i :: 0 <= i < |entries| && entries[i] == Entry(key, r.value)
  {
    if entries == [] then Option.None
    else if entries[0].key == key then Some(entries[0].value)
    else
      var rest := Lookup(entries[1..], key);
      assert rest.Some? ==> exists i :: 0 <= i < |entries[1..]| && entries[1..][i] == Entry(key, rest.value);
      assert HasKey(entries[1..], key) ==> HasKey(entries, key) by {
        if HasKey(entries[1..], key) {
          var i :| 0 <= i < |entries[1..]| && entries[1..][i].key == key;
          assert entries[i + 1].key == key;
        }
      }
      assert HasKey(entries, key) ==> HasKey(entries[1..], key) by {
        if HasKey(entries, key) {
          var i :| 0 <= i < |entries| && entries[i].key == key;
          assert i > 0 && entries[1..][i - 1].key == key;
        }
      }
      rest
  }

  /** The entries without the one under `key`. */
  function Without<V>(entries: seq<Entry<V>>, key: string): (r: seq<Entry<V>>)
    ensures |r| <= |entries|
    ensures forall e :: e in r ==> e in entries && e.key != key
    ensures forall e :: e in entries && e.key != key ==> e in r
  {
    if entries == [] then []
    else if entries[0].key == key then Without(entries[1..], key)
    else [entries[0]] + Without(entries[1..], key)
  }

  /** An access: the entry under `key`, if present, becomes the most recent. */
  function Touch<V>(entries: seq<Entry<V>>, key: string): (r: seq<Entry<V>>)
    ensures Lookup(entries, key).None? ==> r == entries
    ensures Lookup(entries, key).Some? ==> |r| > 0 && r[|r| - 1] == Entry(key, Lookup(entries, key).value)
  {
    var found := Lookup(entries, key);
    if found.Some? then Without(entries, key) + [Entry(key, found.value)] else entries
  }

  /** Sum of the entry sizes. */
  function TotalSize<V>(entries: seq<Entry<V>>, sizeOf: V -> nat): nat {
    if entries == [] then 0 else sizeOf(entries[0].value) + TotalSize(entries[1..], sizeOf)
  }

  /** `trimToSize(limit)`: evicts the least recently used entry while the total
      exceeds the limit. */
  function Trim<V>(entries: seq<Entry<V>>, sizeOf: V -> nat, limit: int): (r: seq<Entry<V>>)
    ensures |r| <= |entries|
    ensures r == [] || TotalSize(r, sizeOf) <= limit
  {
    if entries == [] || TotalSize(entries, sizeOf) <= limit then entries
    else Trim(entries[1..], sizeOf, limit)
  }

  lemma {:induction false} TotalSizeAppend<V>(a: seq<Entry<V>>, b: seq<Entry<V>>, sizeOf: V -> nat)
    ensures TotalSize(a + b, sizeOf) == TotalSize(a, sizeOf) + TotalSize(b, sizeOf)
  {
    if a != [] {
      assert (a + b)[1..] == a[1..] + b;
      TotalSizeAppend(a[1..], b, sizeOf);
    } else {
      assert a + b == b;
    }
  }

  /** Removing a present key subtracts exactly its entry's size. */
  lemma {:induction false} TotalSizeWithout<V>(entries: seq<Entry<V>>, key: string, sizeOf: V -> nat)
    requires DistinctKeys(entries)
    requires Lookup(entries, key).Some?
    ensures TotalSize(entries, sizeOf) == TotalSize(Without(entries, key), sizeOf) + sizeOf(Lookup(entries, key).value)
  {
    if entries[0].key == key {
      WithoutAbsent(entries[1..], key);
    } else {
      TotalSizeWithout(entries[1..], key, sizeOf);
      assert Without(entries, key)[1..] == Without(entries[1..], key);
    }
  }

  lemma {:induction false} WithoutAbsent<V>(entries: seq<Entry<V>>, key: string)
    requires forall i :: 0 <= i < |entries| ==> entries[i].key != key
    ensures Without(entries, key) == entries
  {
    if entries != [] {
      WithoutAbsent(entries[1..], key);
    }
  }

  /** An access changes neither the contents nor the total size, and keeps the
      keys distinct. */
  lemma TouchPreserves<V>(entries: seq<Entry<V>>, key: string, sizeOf: V -> nat)
    requires DistinctKeys(entries)
    ensures TotalSize(Touch(entries, key), sizeOf) == TotalSize(entries, sizeOf)
    ensures DistinctKeys(Touch(entries, key))
    ensures forall k :: Lookup(Touch(entries, key), k) == Lookup(entries, k)
  {
    var found := Lookup(entries, key);
    if found.Some? {
      var w := Without(entries, key);
      TotalSizeWithout(entries, key, sizeOf);
      TotalSizeAppend(w, [Entry(key, found.value)], sizeOf);
      WithoutDistinct(entries, key);
      assert DistinctKeys(w + [Entry(key, found.value)]) by {
        forall i | 0 <= i < |w| ensures w[i].key != key {
          assert w[i] in w;
        }
      }
      forall k ensures Lookup(Touch(entries, key), k) == Lookup(entries, k) {
        LookupUnique(entries, k);
        LookupUnique(w + [Entry(key, found.value)], k);
        if k != key {
          LookupWithout(entries, key, k);
          LookupAppend(w, [Entry(key, found.value)], k);
        } else {
          LookupAppend(w, [Entry(key, found.value)], k);
          forall i | 0 <= i < |w| ensures w[i].key != key {
            assert w[i] in w;
          }
        }
      }
    }
  }

  lemma {:induction false} WithoutDistinct<V>(entries: seq<Entry<V>>, key: string)
    requires DistinctKeys(entries)
    ensures DistinctKeys(Without(entries, key))
  {
    if entries != [] {
      WithoutDistinct(entries[1..], key);
      if entries[0].key != key {
        var rest := Without(entries[1..], key);
        forall i | 0 <= i < |rest| ensures rest[i].key != entries[0].key {
          assert rest[i] in rest;
          var j :| 0 <= j < |entries[1..]| && entries[1..][j] == rest[i];
          assert entries[j + 1] == rest[i];
        }
      }
    }
  }

  /** With distinct keys, the lookup finds the one entry holding the key. */
  lemma LookupUnique<V>(entries: seq<Entry<V>>, key: string)
    requires DistinctKeys(entries)
    ensures forall i :: 0 <= i < |entries| && entries[i].key == key ==> Lookup(entries, key) == Some(entries[i].value)
  {
    forall i | 0 <= i < |entries| && entries[i].key == key
      ensures Lookup(entries, key) == Some(entries[i].value)
    {
      var r := Lookup(entries, key);
      var j :| 0 <= j < |entries| && entries[j] == Entry(key, r.value);
      assert i == j;
    }
  }

  lemma {:induction false} LookupWithout<V>(entries: seq<Entry<V>>, key: string, other: string)
    requires other != key
    ensures Lookup(Without(entries, key), other) == Lookup(entries, other)
  {
    if entries != [] {
      LookupWithout(entries[1..], key, other);
      if entries[0].key != key {
        assert ([entries[0]] + Without(entries[1..], key))[1..] == Without(entries[1..], key);
      }
    }
  }

  lemma {:induction false} LookupAppend<V>(a: seq<Entry<V>>, b: seq<Entry<V>>, key: string)
    ensures Lookup(a + b, key) == if Lookup(a, key).Some? then Lookup(a, key) else Lookup(b, key)
  {
    if a != [] {
      assert (a + b)[1..] == a[1..] + b;
      LookupAppend(a[1..], b, key);
    } else {
      assert a + b == b;
    }
  }

  /** Trimming keeps a suffix (only the least recently used go) and stops as
      soon as the rest fits: the result fits, or is empty, and one entry fewer
      evicted would not have fitted. */
  lemma {:induction false} TrimIsMinimalSuffix<V>(entries: seq<Entry<V>>, sizeOf: V -> nat, limit: int)
    ensures var t := Trim(entries, sizeOf, limit);
      exists n :: 0 <= n <= |entries| && t == entries[n..] &&
        (n > 0 ==> TotalSize(entries[n - 1..], sizeOf) > limit)
    ensures TotalSize(Trim(entries, sizeOf, limit), sizeOf) <= limit || Trim(entries, sizeOf, limit) == []
  {
    if entries != [] && TotalSize(entries, sizeOf) > limit {
      TrimIsMinimalSuffix(entries[1..], sizeOf, limit);
      var n :| 0 <= n <= |entries[1..]| && Trim(entries[1..], sizeOf, limit) == entries[1..][n..] &&
        (n > 0 ==> TotalSize(entries[1..][n - 1..], sizeOf) > limit);
      assert entries[1..][n..] == entries[n + 1..];
      assert n > 0 ==> entries[1..][n - 1..] == entries[n..];
    } else {
      assert entries == entries[0..];
    }
  }

  /** A newest entry that fits on its own survives the trim. */
  lemma {:induction false} TrimKeepsFittingLast<V>(entries: seq<Entry<V>>, last: Entry<V>, sizeOf: V -> nat, limit: int)
    requires sizeOf(last.value) <= limit
    ensures var t := Trim(entries + [last], sizeOf, limit);
      t != [] && t[|t| - 1] == last
  {
    var all := entries + [last];
    if entries == [] {
      assert all == [last] && all[1..] == [];
      assert TotalSize(all, sizeOf) == sizeOf(last.value);
    } else if TotalSize(all, sizeOf) > limit {
      assert all[1..] == entries[1..] + [last];
      TrimKeepsFittingLast(entries[1..], last, sizeOf, limit);
    }
  }

  /** A suffix of a sequence with distinct keys has distinct keys. */
  lemma SuffixDistinct<V>(entries: seq<Entry<V>>, n: int)
    requires DistinctKeys(entries) && 0 <= n <= |entries|
    ensures DistinctKeys(entries[n..])
  {
    forall i, j | 0 <= i < j < |entries[n..]| ensures entries[n..][i].key != entries[n..][j].key {
      assert entries[n..][i] == entries[n + i] && entries[n..][j] == entries[n + j];
    }
  }

  /** Removing the key of entry `i` takes out exactly that entry. */
  lemma {:induction false} WithoutAt<V>(entries: seq<Entry<V>>, i: int)
    requires DistinctKeys(entries) && 0 <= i < |entries|
    ensures Without(entries, entries[i].key) == entries[..i] + entries[i + 1..]
  {
    var key := entries[i].key;
    if i == 0 {
      WithoutAbsent(entries[1..], key);
    } else {
      SuffixDistinct(entries, 1);
      assert entries[1..][i - 1] == entries[i];
      WithoutAt(entries[1..], i - 1);
      assert entries[1..][..i - 1] == entries[1..i];
      assert entries[1..][i..] == entries[i + 1..];
      assert [entries[0]] + entries[1..i] == entries[..i];
    }
  }

  /** An access moves the touched entry to the most recent end and keeps the
      others in their order, which decides the next eviction. */
  lemma TouchMovesToEnd<V>(entries: seq<Entry<V>>, i: int)
    requires DistinctKeys(entries) && 0 <= i < |entries|
    ensures Touch(entries, entries[i].key) == entries[..i] + entries[i + 1..] + [entries[i]]
  {
    LookupUnique(entries, entries[i].key);
    WithoutAt(entries, i);
  }

  class MemoryCache<V> {
    const maxSize: int
    const sizeOf: V -> nat
    /** Least recently used first. */
    var entries: seq<Entry<V>>
    /** `LruCache.size()`: the running total of entry sizes. */
    var size: int

    ghost predicate Valid()
      reads this
    {
      maxSize > 0 && DistinctKeys(entries) && size == TotalSize(entries, sizeOf) && size <= maxSize
    }

    /** `LruCache(maxSize)`; the platform rejects a non-positive capacity. */
    constructor (maxSize: int, sizeOf: V -> nat)
      requires maxSize > 0
      ensures Valid() && entries == [] && this.maxSize == maxSize && this.sizeOf == sizeOf
    {
      this.maxSize := maxSize;
      this.sizeOf := sizeOf;
      entries := [];
      size := 0;
    }

    /** `get`: the stored value, made most recently used; null if absent. */
    method Get(key: string) returns (r: Option<V>)
      requires Valid()
      modifies this
      ensures Valid()
      ensures r == Lookup(old(entries), key)
      ensures entries == Touch(old(entries), key)
    {
      r := Lookup(entries, key);
      TouchPreserves(entries, key, sizeOf);
      entries := Touch(entries, key);
    }

    /** `trimToSize(limit)`: evicts from the least recently used end. */
    method TrimToSize(limit: int)
      requires DistinctKeys(entries) && size == TotalSize(entries, sizeOf)
      modifies this
      ensures entries == Trim(old(entries), sizeOf, limit)
      ensures DistinctKeys(entries) && size == TotalSize(entries, sizeOf)
    {
      ghost var original := entries;
      while size > limit && entries != []
        invariant Trim(entries, sizeOf, limit) == Trim(original, sizeOf, limit)
        invariant DistinctKeys(entries) && size == TotalSize(entries, sizeOf)
        decreases |entries|
      {
        size := size - sizeOf(entries[0].value);
        entries := entries[1..];
        SuffixDistinct(old(entries), 0);
        assert DistinctKeys(entries) by {
          forall i, j | 0 <= i < j < |entries| ensures entries[i].key != entries[j].key {
          }
        }
      }
    }

    /** `MemoryCache.put`: stores only when `get(key)` is null, so the first
        writer wins; the presence check itself counts as an access. */
    method Put(key: string, value: V)
      requires Valid()
      modifies this
      ensures Valid()
      ensures Lookup(old(entries), key).Some? ==> entries == Touch(old(entries), key)
      ensures Lookup(old(entries), key).None? ==>
        entries == Trim(old(entries) + [Entry(key, value)], sizeOf, maxSize)
    {
      var existing := Get(key);
      if existing.None? {
        AppendFreshDistinct(entries, Entry(key, value));
        TotalSizeAppend(entries, [Entry(key, value)], sizeOf);
        assert TotalSize([Entry(key, value)], sizeOf) == sizeOf(value);
        entries := entries + [Entry(key, value)];
        size := size + sizeOf(value);
        TrimToSize(maxSize);
        TrimIsMinimalSuffix(old(entries) + [Entry(key, value)], sizeOf, maxSize);
      }
    }

    /** `clear` (`evictAll`): trims to -1, evicting every entry. */
    method Clear()
      requires Valid()
      modifies this
      ensures Valid() && entries == []
      ensures forall k :: Lookup(entries, k).None?
    {
      TrimToSize(-1);
      TrimIsMinimalSuffix(old(entries), sizeOf, -1);
    }
  }

  /** First writer wins: putting under a present key leaves its value, and
      every other value, as it was. */
  lemma PutKeepsExisting<V>(entries: seq<Entry<V>>, key: string, sizeOf: V -> nat)
    requires DistinctKeys(entries) && Lookup(entries, key).Some?
    ensures forall k :: Lookup(Touch(entries, key), k) == Lookup(entries, k)
  {
    TouchPreserves(entries, key, sizeOf);
  }

  /** A fresh value that fits the capacity on its own is found right after it
      was put. */
  lemma PutThenGet<V>(entries: seq<Entry<V>>, key: string, value: V, sizeOf: V -> nat, maxSize: int)
    requires DistinctKeys(entries) && Lookup(entries, key).None?
    requires sizeOf(value) <= maxSize
    ensures Lookup(Trim(entries + [Entry(key, value)], sizeOf, maxSize), key) == Some(value)
  {
    var all := entries + [Entry(key, value)];
    TrimKeepsFittingLast(entries, Entry(key, value), sizeOf, maxSize);
    TrimIsMinimalSuffix(all, sizeOf, maxSize);
    var t := Trim(all, sizeOf, maxSize);
    var n :| 0 <= n <= |all| && t == all[n..];
    AppendFreshDistinct(entries, Entry(key, value));
    SuffixDistinct(all, n);
    LastEntryFound(t, key, value);
  }

  lemma AppendFreshDistinct<V>(entries: seq<Entry<V>>, e: Entry<V>)
    requires DistinctKeys(entries) && Lookup(entries, e.key).None?
    ensures DistinctKeys(entries + [e])
  {
    forall i | 0 <= i < |entries| ensures entries[i].key != e.key {
      assert HasKey(entries, entries[i].key);
    }
  }

  lemma LastEntryFound<V>(t: seq<Entry<V>>, key: string, value: V)
    requires DistinctKeys(t) && t != [] && t[|t| - 1] == Entry(key, value)
    ensures Lookup(t, key) == Some(value)
  {
    LookupUnique(t, key);
  }

  /** `PutThenGet` where the fit is a hypothesis of the conclusion. */
  lemma PutThenGetIfFits<V>(entries: seq<Entry<V>>, key: string, value: V, sizeOf: V -> nat, maxSize: int)
    requires DistinctKeys(entries) && Lookup(entries, key).None?
    ensures sizeOf(value) <= maxSize ==>
      Lookup(Trim(entries + [Entry(key, value)], sizeOf, maxSize), key) == Some(value)
  {
    if sizeOf(value) <= maxSize {
      PutThenGet(entries, key, value, sizeOf, maxSize);
    }
  }

  /** The app's capacity in KB: `(maxMemory / 1024).toInt() / 8`. */
  function CacheSizeKb(maxMemory: int): (kb: int)
    requires maxMemory >= 0
    ensures maxMemory / 1024 <= Int32Max ==> kb == maxMemory / 1024 / 8
  {
    TruncDiv(ToInt32(maxMemory / 1024), 8)
  }

  /** The app's entry size: `byteCount / 1024`, so a bitmap under 1 KB weighs 0. */
  function BitmapSizeKb(b: Bitmap): (kb: nat)
    ensures kb * 1024 <= b.byteCount < (kb + 1) * 1024
    ensures b.byteCount < 1024 ==> kb == 0
  {
    b.byteCount / 1024
  }

  /** The app's `MemoryCache` object: an `LruCache` of `CacheSizeKb(maxMemory)`
      KB whose entries weigh `BitmapSizeKb`. `LruCache` throws
      IllegalArgumentException for a capacity that is not positive, so the
      object's initialisation fails (None) when the heap bound is under 8 MB
      or so large that its KB count wraps. */
  method NewAppMemoryCache(maxMemory: int) returns (r: Option<MemoryCache<Bitmap>>)
    requires maxMemory >= 0
    ensures r.None? <==> CacheSizeKb(maxMemory) <= 0
    ensures r.Some? ==> fresh(r.value) && r.value.Valid() && r.value.entries == []
    ensures r.Some? ==> r.value.maxSize == CacheSizeKb(maxMemory) && r.value.sizeOf == BitmapSizeKb
  {
    if CacheSizeKb(maxMemory) <= 0 {
      return None;
    }
    var c := new MemoryCache(CacheSizeKb(maxMemory), BitmapSizeKb);
    return Some(c);
  }

  /** A JVM with no heap limit reports `Long.MAX_VALUE`; its KB count wraps to
      -1 as an Int, the capacity is 0 and the cache cannot be built. */
  lemma NoHeapLimitFails()
    ensures CacheSizeKb(0x7FFF_FFFF_FFFF_FFFF) == 0
  {
    assert 0x7FFF_FFFF_FFFF_FFFF / 1024 == 0x1F_FFFF_FFFF_FFFF;
    assert ToInt32(0x1F_FFFF_FFFF_FFFF) == -1;
  }
}
