/** The protocol tree, reduced to what a dissector adds to it: items that
    each highlight a byte range of the packet and carry a line of text
    (kept in whatever structured form the dissector builds it from). */
module Tree {

  datatype Item<T> = Item(offset: int, length: int, text: T) {
    function End(): int {
      offset + length
    }
  }

  /** The items, in order, cover `[start, end)` back to back with no gap
      and no overlap. */
  ghost predicate Tiles<T>(items: seq<Item<T>>, start: int, end: int) {
    if items == [] then start == end
    else
      && items[0].offset == start
      && items[|items| - 1].End() == end
      && (forall i :: 0 <= i < |items| ==> 0 <= items[i].length)
      && (forall i, j :: 0 <= i && j == i + 1 && j < |items| ==> items[j].offset == items[i].End())
  }

  /** Along a tiling, later items never start or end before earlier ones. */
  lemma {:induction false} TilesMonotone<T>(items: seq<Item<T>>, start: int, end: int, i: int, j: int)
    requires Tiles(items, start, end) && 0 <= i <= j < |items|
    ensures items[i].offset <= items[j].offset && items[i].End() <= items[j].End()
    decreases j - i
  {
    if i < j {
      TilesMonotone(items, start, end, i, j - 1);
      assert items[j].offset == items[j - 1].End();
    }
  }

  /** Every item of a tiling lies inside the tiled range. */
  lemma TilesWithin<T>(items: seq<Item<T>>, start: int, end: int, k: int)
    requires Tiles(items, start, end) && 0 <= k < |items|
    ensures start <= items[k].offset && items[k].End() <= end
  {
    TilesMonotone(items, start, end, 0, k);
    TilesMonotone(items, start, end, k, |items| - 1);
  }

  /** An item followed by a tiling of the rest of its range tiles the whole
      range. */
  lemma TilesCons<T>(x: Item<T>, rest: seq<Item<T>>, end: int)
    requires 0 <= x.length && Tiles(rest, x.End(), end)
    ensures Tiles([x] + rest, x.offset, end)
  {
    var s := [x] + rest;
    if rest != [] {
      assert s[1..] == rest;
      forall i, j | 0 <= i && j == i + 1 && j < |s|
        ensures s[j].offset == s[i].End()
      {
        if i > 0 {
          assert s[i] == rest[i - 1] && s[j] == rest[j - 1];
        }
      }
    }
  }

  /** Two tilings of adjacent ranges tile their union. */
  lemma TilesAppend<T>(a: seq<Item<T>>, b: seq<Item<T>>, start: int, mid: int, end: int)
    requires Tiles(a, start, mid) && Tiles(b, mid, end)
    ensures Tiles(a + b, start, end)
  {
    var s := a + b;
    if a == [] {
      assert s == b;
    } else if b == [] {
      assert s == a;
    } else {
      forall i | 0 <= i < |s|
        ensures 0 <= s[i].length
      {
        if i < |a| {
          assert s[i] == a[i];
        } else {
          assert s[i] == b[i - |a|];
        }
      }
      forall i, j | 0 <= i && j == i + 1 && j < |s|
        ensures s[j].offset == s[i].End()
      {
        if j < |a| {
          assert s[i] == a[i] && s[j] == a[j];
        } else if j == |a| {
          assert s[i] == a[|a| - 1] && s[j] == b[0];
        } else {
          assert s[i] == b[i - |a|] && s[j] == b[j - |a|];
        }
      }
      assert s[|s| - 1] == b[|b| - 1];
    }
  }
}
