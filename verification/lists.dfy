/**
 `List.RemoveAll` of the C# library, on the direction lists the walker
 filters, with the facts that fix its result: membership, order and
 multiplicity.
 */
module Lists {
  import opened Geometry

  /** List.RemoveAll: keeps, in order, the elements `drop` rejects. */
  function RemoveAll(ds: seq<Vec2>, drop: Vec2 -> bool): (r: seq<Vec2>)
    ensures forall d :: d in r <==> d in ds && !drop(d)
    ensures |r| <= |ds|
    ensures (forall d :: d in ds ==> drop(d)) ==> r == []
    ensures (forall d :: d in ds ==> !drop(d)) ==> r == ds
  {
    if |ds| == 0 then []
    else if drop(ds[0]) then RemoveAll(ds[1..], drop)
    else [ds[0]] + RemoveAll(ds[1..], drop)
  }

  /** How a concatenation splits into its first element and the rest. */
  lemma AppendParts(a: seq<Vec2>, b: seq<Vec2>)
    ensures |a| == 0 ==> a + b == b
    ensures |a| > 0 ==> (a + b)[0] == a[0] && (a + b)[1..] == a[1..] + b
  {
  }

  lemma AppendAssociative(x: seq<Vec2>, y: seq<Vec2>, z: seq<Vec2>)
    ensures x + (y + z) == (x + y) + z
  {
  }

  /** RemoveAll keeps order: filtering a concatenation is the concatenation of the filtered parts. */
  lemma {:induction false} RemoveAllAppend(a: seq<Vec2>, b: seq<Vec2>, drop: Vec2 -> bool)
    ensures RemoveAll(a + b, drop) == RemoveAll(a, drop) + RemoveAll(b, drop)
    decreases |a|
  {
    AppendParts(a, b);
    if |a| > 0 {
      RemoveAllAppend(a[1..], b, drop);
      if !drop(a[0]) {
        AppendAssociative([a[0]], RemoveAll(a[1..], drop), RemoveAll(b, drop));
      }
    }
  }

  /** RemoveAll keeps every copy of a rejected element and no copy of a dropped one. */
  lemma {:induction false} RemoveAllCount(ds: seq<Vec2>, drop: Vec2 -> bool, d: Vec2)
    ensures multiset(RemoveAll(ds, drop))[d] == if drop(d) then 0 else multiset(ds)[d]
    decreases |ds|
  {
    if |ds| > 0 {
      assert ds == [ds[0]] + ds[1..];
      RemoveAllCount(ds[1..], drop, d);
    }
  }

  /** RemoveAll on a one-element list: the element is kept exactly when `drop` rejects it. */
  lemma RemoveAllSingle(d: Vec2, drop: Vec2 -> bool)
    ensures RemoveAll([d], drop) == if drop(d) then [] else [d]
  {
  }
}
