/**
 * The scene (rtcli/src/object/world.rs): an ordered list of objects and the
 * closest-hit scan over it. The scan asks each object in turn for a hit in
 * `(ray_t.min, closest)` and shrinks `closest` to every hit it finds.
 */
module World {
  import opened Reals
  import opened Wrappers
  import opened Interval
  import opened Vec3
  import opened Ray
  import opened HitRecord
  import opened Spheres = Sphere

  datatype World = World(objects: seq<Sphere>)

  predicate ValidObjects(objects: seq<Sphere>)
  {
    forall i :: 0 <= i < |objects| ==> ValidSphere(objects[i])
  }

  /** `World::new`: no objects. */
  function New(): (w: World)
    ensures |w.objects| == 0
  {
    World([])
  }

  /** `World::from`: exactly the one object given. */
  function From(o: Sphere): (w: World)
    ensures w.objects == [o]
  {
    World([o])
  }

  /** `World::clear`: every object is removed. */
  function Clear(w: World): (r: World)
    ensures |r.objects| == 0
  {
    World([])
  }

  /** `World::push`: `o` goes last, the earlier objects keep their order. */
  function Push(w: World, o: Sphere): (r: World)
    ensures |r.objects| == |w.objects| + 1
    ensures r.objects[..|w.objects|] == w.objects
    ensures r.objects[|w.objects|] == o
  {
    World(w.objects + [o])
  }

  /**
   * One iteration of the loop of `World::hit`: object `k` is asked for a hit
   * in `(ray_t.min, closest)`; a hit becomes the record and its `t` the new
   * `closest`.
   */
  function Step(objects: seq<Sphere>, ray: Ray, rayT: Interval, sqrt: real -> real,
                k: nat, record: Option<HitRecord>, closest: Bound): (Option<HitRecord>, Bound)
    requires IsSqrt(sqrt) && ValidRay(ray) && ValidObjects(objects)
    requires k < |objects|
  {
    match Spheres.Hit(objects[k], ray, Interval(rayT.min, closest), sqrt)
    case Some(rec) => (Some(rec), Fin(rec.t))
    case None => (record, closest)
  }

  /** The loop of `World::hit` from object `k` on, with the record and the bound found so far. */
  function Scan(objects: seq<Sphere>, ray: Ray, rayT: Interval, sqrt: real -> real,
                k: nat, record: Option<HitRecord>, closest: Bound): Option<HitRecord>
    requires IsSqrt(sqrt) && ValidRay(ray) && ValidObjects(objects)
    requires k <= |objects|
    decreases |objects| - k
  {
    if k == |objects| then record
    else
      var next := Step(objects, ray, rayT, sqrt, k, record, closest);
      Scan(objects, ray, rayT, sqrt, k + 1, next.0, next.1)
  }

  /** `World::hit`: the scan from the first object, with no record and `closest = ray_t.max`. */
  function Hit(w: World, ray: Ray, rayT: Interval, sqrt: real -> real): (r: Option<HitRecord>)
    requires IsSqrt(sqrt) && ValidRay(ray) && ValidObjects(w.objects)
    ensures r == Closest(Hits(w.objects, ray, rayT, sqrt), |w.objects|)
    ensures IsClosest(Hits(w.objects, ray, rayT, sqrt), |w.objects|, r)
  {
    ScanFindsClosest(w.objects, ray, rayT, sqrt, 0, None, rayT.max);
    ClosestMeetsReference(Hits(w.objects, ray, rayT, sqrt), |w.objects|);
    Scan(w.objects, ray, rayT, sqrt, 0, None, rayT.max)
  }

  /** What each object reports for the whole window, in order. */
  function Hits(objects: seq<Sphere>, ray: Ray, rayT: Interval, sqrt: real -> real): (hs: seq<Option<HitRecord>>)
    requires IsSqrt(sqrt) && ValidRay(ray) && ValidObjects(objects)
    ensures |hs| == |objects|
  {
    if |objects| == 0 then []
    else Hits(objects[..|objects| - 1], ray, rayT, sqrt) + [Spheres.Hit(objects[|objects| - 1], ray, rayT, sqrt)]
  }

  /** Entry `i` of `Hits` is object `i`'s own answer. */
  lemma {:induction false} HitsAt(objects: seq<Sphere>, ray: Ray, rayT: Interval, sqrt: real -> real, i: nat)
    requires IsSqrt(sqrt) && ValidRay(ray) && ValidObjects(objects)
    requires i < |objects|
    ensures Hits(objects, ray, rayT, sqrt)[i] == Spheres.Hit(objects[i], ray, rayT, sqrt)
    decreases |objects|
  {
    var prefix := objects[..|objects| - 1];
    if i < |objects| - 1 {
      assert prefix[i] == objects[i];
      HitsAt(prefix, ray, rayT, sqrt, i);
    }
  }

  /**
   * Among the first `n` hits, hit `i` is present and nearest, and every
   * earlier hit (if any) is strictly farther.
   */
  ghost predicate IsWinner(hits: seq<Option<HitRecord>>, n: nat, i: nat)
    requires n <= |hits|
  {
    i < n && hits[i].Some? &&
    (forall j :: 0 <= j < n && hits[j].Some? ==> hits[i].value.t <= hits[j].value.t) &&
    (forall j :: 0 <= j < i && hits[j].Some? ==> hits[i].value.t < hits[j].value.t)
  }

  /** None of the first `n` objects is hit. */
  ghost predicate AllMiss(hits: seq<Option<HitRecord>>, n: nat)
    requires n <= |hits|
  {
    forall j :: 0 <= j < n ==> hits[j].None?
  }

  /**
   * The reference meaning of the scan over the first `n` objects: `None`
   * only when none of them is hit in the window, and otherwise the record of
   * the nearest hit, the earliest object winning ties.
   */
  ghost predicate IsClosest(hits: seq<Option<HitRecord>>, n: nat, r: Option<HitRecord>)
    requires n <= |hits|
  {
    (r.None? ==> AllMiss(hits, n)) &&
    (r.Some? ==> exists i :: 0 <= i < n && IsWinner(hits, n, i) && hits[i] == r)
  }

  /** `h` replaces `r` only when it is a hit strictly nearer than `r`. */
  function Nearer(r: Option<HitRecord>, h: Option<HitRecord>): Option<HitRecord>
  {
    if h.Some? && (r.None? || h.value.t < r.value.t) then h else r
  }

  /**
   * The left-to-right fold the scan performs, over whole-window hits: the
   * closest of the first `n` hits, an earlier hit kept on ties.
   */
  function Closest(hits: seq<Option<HitRecord>>, n: nat): Option<HitRecord>
    requires n <= |hits|
  {
    if n == 0 then None else Nearer(Closest(hits, n - 1), hits[n - 1])
  }

  /** The fold meets the declarative meaning of "closest". */
  lemma {:induction false} ClosestMeetsReference(hits: seq<Option<HitRecord>>, n: nat)
    requires n <= |hits|
    ensures IsClosest(hits, n, Closest(hits, n))
  {
    if n > 0 {
      var prev := Closest(hits, n - 1);
      ClosestMeetsReference(hits, n - 1);
      ClosestExtend(hits, n - 1, prev);
      assert Closest(hits, n) == Nearer(prev, hits[n - 1]);
    }
  }

  /** Looking at one more hit: the closest so far gives way only to a strictly nearer one. */
  lemma ClosestExtend(hits: seq<Option<HitRecord>>, n: nat, r: Option<HitRecord>)
    requires n < |hits|
    requires IsClosest(hits, n, r)
    ensures IsClosest(hits, n + 1, Nearer(r, hits[n]))
  {
    var h := hits[n];
    if h.Some? && (r.None? || h.value.t < r.value.t) {
      ExtendNearer(hits, n, r);
    } else if r.Some? {
      var i :| 0 <= i < n && IsWinner(hits, n, i) && hits[i] == r;
      assert IsWinner(hits, n + 1, i);
    }
  }

  lemma ExtendNearer(hits: seq<Option<HitRecord>>, n: nat, r: Option<HitRecord>)
    requires n < |hits|
    requires IsClosest(hits, n, r)
    requires hits[n].Some? && (r.None? || hits[n].value.t < r.value.t)
    ensures IsClosest(hits, n + 1, hits[n])
  {
    var t := hits[n].value.t;
    forall j | 0 <= j < n && hits[j].Some?
      ensures t < hits[j].value.t
    {
      if r.None? {
        assert false;
      } else {
        var i :| 0 <= i < n && IsWinner(hits, n, i) && hits[i] == r;
        assert r.value.t <= hits[j].value.t;
      }
    }
    assert IsWinner(hits, n + 1, n);
  }

  /** The reference meaning admits one result only. */
  lemma ClosestUnique(hits: seq<Option<HitRecord>>, n: nat, r: Option<HitRecord>, r': Option<HitRecord>)
    requires n <= |hits|
    requires IsClosest(hits, n, r) && IsClosest(hits, n, r')
    ensures r == r'
  {
    if r.Some? && r'.Some? {
      var i :| 0 <= i < n && IsWinner(hits, n, i) && hits[i] == r;
      var i' :| 0 <= i' < n && IsWinner(hits, n, i') && hits[i'] == r';
      assert hits[i].value.t <= hits[i'].value.t && hits[i'].value.t <= hits[i].value.t;
      assert !(i < i') && !(i' < i);
    } else if r.Some? || r'.Some? {
      assert false;
    }
  }

  /** The meaning over the first `n` hits depends on those hits only. */
  lemma ClosestPrefix(hits: seq<Option<HitRecord>>, hits': seq<Option<HitRecord>>, n: nat, r: Option<HitRecord>)
    requires n <= |hits| && n <= |hits'|
    requires hits[..n] == hits'[..n]
    ensures IsClosest(hits, n, r) <==> IsClosest(hits', n, r)
  {
    assert forall j :: 0 <= j < n ==> hits[j] == hits[..n][j] == hits'[..n][j] == hits'[j];
    assert AllMiss(hits, n) <==> AllMiss(hits', n);
    forall i: nat
      ensures IsWinner(hits, n, i) <==> IsWinner(hits', n, i)
    {
    }
  }

  /** The scan's invariant: the record is the closest hit so far and `closest` is its `t`. */
  ghost predicate ScanInvariant(objects: seq<Sphere>, ray: Ray, rayT: Interval, sqrt: real -> real,
                                k: nat, record: Option<HitRecord>, closest: Bound)
    requires IsSqrt(sqrt) && ValidRay(ray) && ValidObjects(objects)
    requires k <= |objects|
  {
    record == Closest(Hits(objects, ray, rayT, sqrt), k) &&
    closest == (if record.Some? then Fin(record.value.t) else rayT.max)
  }

  lemma {:induction false} ScanFindsClosest(objects: seq<Sphere>, ray: Ray, rayT: Interval, sqrt: real -> real,
                                            k: nat, record: Option<HitRecord>, closest: Bound)
    requires IsSqrt(sqrt) && ValidRay(ray) && ValidObjects(objects)
    requires k <= |objects|
    requires ScanInvariant(objects, ray, rayT, sqrt, k, record, closest)
    ensures Scan(objects, ray, rayT, sqrt, k, record, closest) == Closest(Hits(objects, ray, rayT, sqrt), |objects|)
    decreases |objects| - k
  {
    if k < |objects| {
      var next := Step(objects, ray, rayT, sqrt, k, record, closest);
      ScanStep(objects, ray, rayT, sqrt, k, record, closest);
      ScanFindsClosest(objects, ray, rayT, sqrt, k + 1, next.0, next.1);
    }
  }

  /**
   * One iteration of the loop keeps the invariant: asking object `k` for a hit
   * below `closest` is the same as keeping its whole-window hit when nearer.
   */
  lemma ScanStep(objects: seq<Sphere>, ray: Ray, rayT: Interval, sqrt: real -> real,
                 k: nat, record: Option<HitRecord>, closest: Bound)
    requires IsSqrt(sqrt) && ValidRay(ray) && ValidObjects(objects)
    requires k < |objects|
    requires ScanInvariant(objects, ray, rayT, sqrt, k, record, closest)
    ensures var next := Step(objects, ray, rayT, sqrt, k, record, closest);
      ScanInvariant(objects, ray, rayT, sqrt, k + 1, next.0, next.1)
  {
    var hits := Hits(objects, ray, rayT, sqrt);
    HitsAt(objects, ray, rayT, sqrt, k);
    ClosestMeetsReference(hits, k);
    if record.None? {
      assert Interval(rayT.min, closest) == rayT;
    } else {
      var i :| 0 <= i < k && IsWinner(hits, k, i) && hits[i] == record;
      HitsAt(objects, ray, rayT, sqrt, i);
      NarrowedHit(objects[k], ray, rayT, record.value.t, sqrt);
    }
    assert Step(objects, ray, rayT, sqrt, k, record, closest).0 == Nearer(record, hits[k]);
  }

  /**
   * The returned hit is the nearest surface point of the whole scene inside
   * the window: it lies strictly inside `rayT` on some object, no object has a
   * surface point inside `rayT` nearer than it, and `None` means no object has
   * a surface point inside `rayT` at all.
   */
  lemma HitIsNearestSurfacePoint(w: World, ray: Ray, rayT: Interval, sqrt: real -> real)
    requires IsSqrt(sqrt) && ValidRay(ray) && ValidObjects(w.objects)
    ensures var r := Hit(w, ray, rayT, sqrt);
      r.Some? ==> (Surrounds(rayT, r.value.t) &&
                   exists i :: 0 <= i < |w.objects| && OnSphere(w.objects[i], At(ray, r.value.t)))
    ensures var r := Hit(w, ray, rayT, sqrt);
      r.Some? ==> (forall i, t :: 0 <= i < |w.objects| && Surrounds(rayT, t) && OnSphere(w.objects[i], At(ray, t)) ==>
                     r.value.t <= t)
    ensures Hit(w, ray, rayT, sqrt).None? <==>
      forall i, t :: 0 <= i < |w.objects| && Surrounds(rayT, t) ==> !OnSphere(w.objects[i], At(ray, t))
  {
    var r := Hit(w, ray, rayT, sqrt);
    var objects := w.objects;
    var hits := Hits(objects, ray, rayT, sqrt);
    if r.Some? {
      var i :| 0 <= i < |objects| && IsWinner(hits, |objects|, i) && hits[i] == r;
      HitsAt(objects, ray, rayT, sqrt, i);
      Spheres.HitIsNearestSurfacePoint(objects[i], ray, rayT, sqrt);
      forall j, t | 0 <= j < |objects| && Surrounds(rayT, t) && OnSphere(objects[j], At(ray, t))
        ensures r.value.t <= t
      {
        HitsAt(objects, ray, rayT, sqrt, j);
        Spheres.HitIsNearestSurfacePoint(objects[j], ray, rayT, sqrt);
        assert hits[j].Some?;
      }
    } else {
      forall j, t | 0 <= j < |objects| && Surrounds(rayT, t)
        ensures !OnSphere(objects[j], At(ray, t))
      {
        HitsAt(objects, ray, rayT, sqrt, j);
        Spheres.HitIsNearestSurfacePoint(objects[j], ray, rayT, sqrt);
        assert hits[j].None?;
      }
    }
  }

  /**
   * A returned record is one some object assembled: its point is on the ray
   * at `t`, its normal is a unit vector facing against the ray, and its
   * material is that object's.
   */
  lemma HitRecordFacts(w: World, ray: Ray, rayT: Interval, sqrt: real -> real)
    requires IsSqrt(sqrt) && ValidRay(ray) && ValidObjects(w.objects)
    ensures var r := Hit(w, ray, rayT, sqrt);
      r.Some? ==> (r.value.point == At(ray, r.value.t) &&
                   LenSq(r.value.normal) == 1.0 && Dot(ray.direction, r.value.normal) <= 0.0 &&
                   exists i :: 0 <= i < |w.objects| && r.value.material == w.objects[i].material)
  {
    var r := Hit(w, ray, rayT, sqrt);
    var hits := Hits(w.objects, ray, rayT, sqrt);
    if r.Some? {
      var i :| 0 <= i < |w.objects| && IsWinner(hits, |w.objects|, i) && hits[i] == r;
      HitsAt(w.objects, ray, rayT, sqrt, i);
      Spheres.HitRecordFacts(w.objects[i], ray, rayT, sqrt);
    }
  }

  /** A world without objects is never hit; in particular `new` and `clear` give one. */
  lemma EmptyWorldMisses(w: World, ray: Ray, rayT: Interval, sqrt: real -> real)
    requires IsSqrt(sqrt) && ValidRay(ray)
    requires |w.objects| == 0
    ensures Hit(w, ray, rayT, sqrt).None?
  {
  }

  /**
   * Pushing an object changes the hit only when the new object is hit
   * strictly nearer: on a tie the earlier object's record stays.
   */
  lemma PushedHit(w: World, o: Sphere, ray: Ray, rayT: Interval, sqrt: real -> real)
    requires IsSqrt(sqrt) && ValidRay(ray) && ValidObjects(w.objects) && ValidSphere(o)
    ensures Hit(Push(w, o), ray, rayT, sqrt) == Nearer(Hit(w, ray, rayT, sqrt), Spheres.Hit(o, ray, rayT, sqrt))
  {
    var pushed := Push(w, o);
    var n := |w.objects|;
    var before := Hit(w, ray, rayT, sqrt);
    assert ValidObjects(pushed.objects);
    var hits := Hits(w.objects, ray, rayT, sqrt);
    var hits' := Hits(pushed.objects, ray, rayT, sqrt);
    assert hits[..n] == hits'[..n];
    ClosestPrefix(hits, hits', n, before);
    ClosestExtend(hits', n, before);
    ClosestUnique(hits', n + 1, Hit(pushed, ray, rayT, sqrt), Nearer(before, hits'[n]));
  }
}
