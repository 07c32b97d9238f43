/** `BitmapPool` of the app module: a map from a size-and-config key to a FIFO
    queue of at most six reusable bitmaps. */
module BitmapPooling {
  import opened Common
  import opened Graphics

  /** `MAX_POOL_SIZE`. */
  const MaxPoolSize: nat := 6

  /** `Bitmap.Config.name`. */
  function ConfigName(c: Config): (name: string)
    ensures |name| >= 7 && NoDash(name)
  {
    match c
    case ALPHA_8 => "ALPHA_8"
    case RGB_565 => "RGB_565"
    case ARGB_4444 => "ARGB_4444"
    case ARGB_8888 => "ARGB_8888"
    case RGBA_F16 => "RGBA_F16"
    case RGBA_1010102 => "RGBA_1010102"
  }

  /** `getKey`: `"$width-$height-${config.name}"`. */
  function GetKey(width: int, height: int, config: Config): string {
    IntToString(width) + "-" + (IntToString(height) + "-" + ConfigName(config))
  }

  lemma ConfigNameInjective(c: Config, d: Config)
    requires ConfigName(c) == ConfigName(d)
    ensures c == d
  {
    var s, t := ConfigName(c), ConfigName(d);
    assert |s| == |t| && |s| >= 7;
    assert s[0] == t[0] && s[5] == t[5];
  }

  /** The key names its queue unambiguously: two keys are equal exactly when
      width, height and config are, whatever the signs of the sizes. */
  lemma GetKeyInjective(w1: int, h1: int, c1: Config, w2: int, h2: int, c2: Config)
    ensures GetKey(w1, h1, c1) == GetKey(w2, h2, c2) <==> w1 == w2 && h1 == h2 && c1 == c2
  {
    if GetKey(w1, h1, c1) == GetKey(w2, h2, c2) {
      SplitAtSignedPrefix(w1, IntToString(h1) + "-" + ConfigName(c1), w2, IntToString(h2) + "-" + ConfigName(c2));
      SplitAtSignedPrefix(h1, ConfigName(c1), h2, ConfigName(c2));
      ConfigNameInjective(c1, c2);
    }
  }

  /** `b` has a config and positive size, and `k` is its key. */
  predicate FiledUnder(b: Bitmap, k: string) {
    b.config.Some? && b.width > 0 && b.height > 0 && GetKey(b.width, b.height, b.config.value) == k
  }

  /** A queue under key `k`: at most six bitmaps, each filed under `k`. */
  ghost predicate QueueOk(k: string, q: seq<Bitmap>) {
    |q| <= MaxPoolSize && forall i :: 0 <= i < |q| ==> FiledUnder(q[i], k)
  }

  lemma PopKeepsQueueOk(k: string, q: seq<Bitmap>)
    requires QueueOk(k, q) && q != []
    ensures QueueOk(k, q[1..]) && Distinct(q) ==> Distinct(q[1..])
    ensures FiledUnder(q[0], k)
  {
  }

  lemma PushKeepsQueueOk(k: string, q: seq<Bitmap>, b: Bitmap)
    requires QueueOk(k, q) && |q| < MaxPoolSize && FiledUnder(b, k)
    ensures QueueOk(k, q + [b])
  {
  }

  ghost predicate Distinct(q: seq<Bitmap>) {
    forall i, j :: 0 <= i < j < |q| ==> q[i] != q[j]
  }

  lemma AppendDistinct(q: seq<Bitmap>, b: Bitmap)
    requires Distinct(q) && b !in q
    ensures Distinct(q + [b])
  {
  }

  /** A bitmap queued under the key of a size and config has that size and
      config; in particular the size is positive. */
  lemma HeadMatches(q: seq<Bitmap>, width: int, height: int, config: Config)
    requires QueueOk(GetKey(width, height, config), q) && q != []
    ensures q[0].width == width && q[0].height == height && q[0].config == Some(config)
    ensures width > 0 && height > 0
  {
    GetKeyInjective(q[0].width, q[0].height, q[0].config.value, width, height, config);
  }

  /** Recycles every bitmap of `queue`, front to back. */
  method RecycleAll(queue: seq<Bitmap>)
    modifies set i | 0 <= i < |queue| :: queue[i]
    ensures forall i :: 0 <= i < |queue| ==> queue[i].isRecycled
  {
    for i := 0 to |queue|
      invariant forall j :: 0 <= j < i ==> queue[j].isRecycled
    {
      queue[i].Recycle();
    }
  }

  class BitmapPool {
    /** `pool`: key to queue, front of the queue first. */
    var pool: map<string, seq<Bitmap>>

    /** Every queue holds at most six bitmaps, all with a config and all filed
        under their own key. */
    ghost predicate Valid()
      reads this
    {
      forall k :: k in pool ==> QueueOk(k, pool[k])
    }

    /** No bitmap is queued twice. Under Valid a bitmap can only sit in the
        queue of its own key, so this looks within each queue. */
    ghost predicate NoDuplicates()
      reads this
    {
      forall k :: k in pool ==> Distinct(pool[k])
    }

    /** The bitmaps currently pooled. */
    ghost function Pooled(): set<Bitmap>
      reads this
    {
      set k, i | k in pool && 0 <= i < |pool[k]| :: pool[k][i]
    }

    /** The front of the queue under `key`, if any. */
    ghost function Front(key: string): set<Bitmap>
      reads this
    {
      if key in pool && pool[key] != [] then {pool[key][0]} else {}
    }

    constructor ()
      ensures Valid() && pool == map[]
    {
      pool := map[];
    }

    /** `get`: one pop attempt at the front of the matching queue; a live,
        mutable bitmap is erased and reused, anything else gives a fresh one.
        No queue is ever created here. `Bitmap.createBitmap` rejects a
        non-positive size with an `IllegalArgumentException`, modelled as
        `None`; no queue matches such a size, so the pool is then unchanged. */
    method Get(width: int, height: int, config: Config) returns (r: Option<Bitmap>)
      requires Valid()
      modifies this, Front(GetKey(width, height, config))
      ensures Valid()
      ensures old(NoDuplicates()) ==> NoDuplicates()
      ensures pool.Keys == old(pool.Keys)
      ensures r.None? <==> width <= 0 || height <= 0
      ensures r.Some? ==>
        r.value.width == width && r.value.height == height && r.value.config == Some(config) &&
        r.value.content == [] && !r.value.isRecycled && r.value.isMutable
      ensures var key := GetKey(width, height, config);
        if key in old(pool) && old(pool)[key] != [] then
          pool == old(pool)[key := old(pool)[key][1..]] &&
          (old(!pool[key][0].isRecycled && pool[key][0].isMutable) ==> r == Some(old(pool[key][0]))) &&
          (old(pool[key][0].isRecycled || !pool[key][0].isMutable) ==> r.Some? && fresh(r.value))
        else
          pool == old(pool) && (r.Some? ==> fresh(r.value))
    {
      var key := GetKey(width, height, config);
      if key in pool && pool[key] != [] {
        var head := pool[key][0];
        PopKeepsQueueOk(key, pool[key]);
        HeadMatches(pool[key], width, height, config);
        pool := pool[key := pool[key][1..]];
        if !head.isRecycled && head.isMutable {
          head.EraseColor();
          return Some(head);
        }
      }
      if width <= 0 || height <= 0 {
        return None;
      }
      var b := new Bitmap.Create(width, height, config);
      r := Some(b);
    }

    /** `recycle`: recycled, immutable and config-less bitmaps are ignored; a
        bitmap is queued at the back of its key's queue when that holds fewer
        than six, and is recycled otherwise. */
    method Recycle(bitmap: Bitmap)
      requires Valid()
      requires bitmap.width > 0 && bitmap.height > 0
      modifies this, bitmap
      ensures Valid()
      ensures old(NoDuplicates()) && old(bitmap !in Pooled()) ==> NoDuplicates()
      ensures bitmap.content == old(bitmap.content)
      ensures old(bitmap.isRecycled || !bitmap.isMutable || bitmap.config.None?) ==>
        pool == old(pool) && bitmap.isRecycled == old(bitmap.isRecycled)
      ensures old(!bitmap.isRecycled && bitmap.isMutable && bitmap.config.Some?) ==>
        var key := GetKey(bitmap.width, bitmap.height, bitmap.config.value);
        var queue := if key in old(pool) then old(pool)[key] else [];
        if |queue| < MaxPoolSize then
          pool == old(pool)[key := queue + [bitmap]] && !bitmap.isRecycled
        else
          pool == old(pool) && bitmap.isRecycled
    {
      if bitmap.isRecycled || !bitmap.isMutable {
        return;
      }
      if bitmap.config.None? {
        return;
      }
      var key := GetKey(bitmap.width, bitmap.height, bitmap.config.value);
      if key !in pool {
        pool := pool[key := []];
      }
      var queue := pool[key];
      if |queue| < MaxPoolSize {
        if NoDuplicates() && bitmap !in old(Pooled()) {
          assert bitmap !in queue by {
            if key in old(pool) {
              assert forall i :: 0 <= i < |queue| ==> queue[i] == old(pool)[key][i] && queue[i] in old(Pooled());
            }
          }
          AppendDistinct(queue, bitmap);
        }
        PushKeepsQueueOk(key, queue, bitmap);
        pool := pool[key := queue + [bitmap]];
      } else {
        bitmap.Recycle();
      }
    }

    /** `clear`: recycles every pooled bitmap, empties each queue and then the
        map itself. */
    method Clear()
      modifies this, Pooled()
      ensures pool == map[]
      ensures forall k, i :: k in old(pool) && 0 <= i < |old(pool)[k]| ==> old(pool)[k][i].isRecycled
      ensures Valid()
    {
      ghost var original := pool;
      var keys := pool.Keys;
      while keys != {}
        invariant keys <= pool.Keys == original.Keys
        invariant forall k :: k in pool ==> (k in keys ==> pool[k] == original[k]) && (k !in keys ==> pool[k] == [])
        invariant forall k, i :: k in original && k !in keys && 0 <= i < |original[k]| ==> original[k][i].isRecycled
        decreases |keys|
      {
        var k :| k in keys;
        var queue := pool[k];
        assert forall i :: 0 <= i < |queue| ==> queue[i] in old(Pooled());
        RecycleAll(queue);
        pool := pool[k := []];
        keys := keys - {k};
      }
      pool := map[];
    }
  }
}
