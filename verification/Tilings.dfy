/** Extents laid end to end: the shape of the data region of a file. */
module Tilings {
  datatype Extent = Extent(offset: nat, capacity: nat) {
    ghost predicate Contains(p: nat) {
      offset <= p < offset + capacity
    }
  }

  type Extents = map<nat, Extent>

  ghost predicate NoDuplicates<T>(s: seq<T>) {
    s == [] || (s[0] !in s[1..] && NoDuplicates(s[1..]))
  }

  lemma {:induction false} NoDuplicatesConcat<T>(a: seq<T>, b: seq<T>)
    ensures NoDuplicates(a + b) <==> NoDuplicates(a) && NoDuplicates(b) && forall x :: x in a ==> x !in b
  {
    if a == [] {
      assert a + b == b;
    } else {
      assert (a + b)[1..] == a[1..] + b;
      NoDuplicatesConcat(a[1..], b);
      assert a == [a[0]] + a[1..];
    }
  }

  lemma {:induction false} NoDuplicatesAt<T>(s: seq<T>, i: nat, j: nat)
    requires NoDuplicates(s) && i < j < |s|
    ensures s[i] != s[j]
  {
    if i > 0 { NoDuplicatesAt(s[1..], i - 1, j - 1); } else { assert s[j] in s[1..]; }
  }

  lemma {:induction false} NoDuplicatesMultiset<T>(s: seq<T>)
    ensures NoDuplicates(s) <==> forall x :: multiset(s)[x] <= 1
  {
    if s != [] {
      NoDuplicatesMultiset(s[1..]);
      assert s == [s[0]] + s[1..];
      assert multiset(s) == multiset{s[0]} + multiset(s[1..]);
      if NoDuplicates(s) {
        forall x ensures multiset(s)[x] <= 1 {
          assert s[0] !in multiset(s[1..]);
        }
      }
      assert forall x :: multiset(s[1..])[x] <= multiset(s)[x];
      if s[0] in s[1..] { assert multiset(s)[s[0]] > 1; }
    }
  }

  /** The extents of `layout`, in this order, fill [base, end) with no gap and no overlap. */
  ghost predicate Tiles(ext: Extents, layout: seq<nat>, base: nat, end: nat) {
    if layout == [] then base == end
    else
      && layout[0] in ext
      && ext[layout[0]].offset == base
      && ext[layout[0]].capacity > 0
      && Tiles(ext, layout[1..], base + ext[layout[0]].capacity, end)
  }

  lemma {:induction false} TilesFrame(ext: Extents, ext': Extents, layout: seq<nat>, base: nat, end: nat)
    requires Tiles(ext, layout, base, end)
    requires forall o :: o in layout && o in ext ==> o in ext' && ext'[o] == ext[o]
    ensures Tiles(ext', layout, base, end)
  {
    if layout != [] {
      TilesFrame(ext, ext', layout[1..], base + ext[layout[0]].capacity, end);
    }
  }

  lemma {:induction false} TilesConcat(ext: Extents, a: seq<nat>, b: seq<nat>, base: nat, mid: nat, end: nat)
    requires Tiles(ext, a, base, mid) && Tiles(ext, b, mid, end)
    ensures Tiles(ext, a + b, base, end)
  {
    if a == [] {
      assert a + b == b;
    } else {
      assert (a + b)[1..] == a[1..] + b;
      TilesConcat(ext, a[1..], b, base + ext[a[0]].capacity, mid, end);
    }
  }

  /** A block put behind the last one. */
  lemma TilesAppend(ext: Extents, layout: seq<nat>, base: nat, end: nat, o: nat, capacity: nat)
    requires Tiles(ext, layout, base, end) && o !in layout && capacity > 0
    ensures Tiles(ext[o := Extent(end, capacity)], layout + [o], base, end + capacity)
  {
    var ext' := ext[o := Extent(end, capacity)];
    TilesFrame(ext, ext', layout, base, end);
    assert Tiles(ext', [o], end, end + capacity);
    TilesConcat(ext', layout, [o], base, end, end + capacity);
  }

  ghost function Rotate(layout: seq<nat>): seq<nat>
    requires layout != []
  {
    layout[1..] + [layout[0]]
  }

  /** Every extent of a tiling lies inside it. */
  lemma {:induction false} TilesInside(ext: Extents, layout: seq<nat>, base: nat, end: nat, o: nat)
    requires Tiles(ext, layout, base, end) && o in layout
    ensures o in ext && ext[o].capacity > 0
    ensures base <= ext[o].offset && ext[o].offset + ext[o].capacity <= end
  {
    TilesGrow(ext, layout[1..], base + ext[layout[0]].capacity, end);
    if o != layout[0] {
      TilesInside(ext, layout[1..], base + ext[layout[0]].capacity, end, o);
    }
  }

  lemma {:induction false} TilesGrow(ext: Extents, layout: seq<nat>, base: nat, end: nat)
    requires Tiles(ext, layout, base, end)
    ensures base <= end
    ensures layout != [] ==> base < end
  {
    if layout != [] {
      TilesGrow(ext, layout[1..], base + ext[layout[0]].capacity, end);
    }
  }

  /** Different extents of a tiling do not overlap. */
  lemma {:induction false} TilesDisjoint(ext: Extents, layout: seq<nat>, base: nat, end: nat, o: nat, p: nat)
    requires Tiles(ext, layout, base, end) && o in layout && p in layout && o != p
    ensures o in ext && p in ext
    ensures ext[o].offset + ext[o].capacity <= ext[p].offset || ext[p].offset + ext[p].capacity <= ext[o].offset
  {
    var base' := base + ext[layout[0]].capacity;
    if o == layout[0] {
      TilesInside(ext, layout[1..], base', end, p);
    } else if p == layout[0] {
      TilesInside(ext, layout[1..], base', end, o);
    } else {
      TilesDisjoint(ext, layout[1..], base', end, o, p);
    }
  }

  /** Every byte of [base, end) belongs to exactly one extent. */
  lemma {:induction false} TilesCover(ext: Extents, layout: seq<nat>, base: nat, end: nat, p: nat) returns (o: nat)
    requires Tiles(ext, layout, base, end) && base <= p < end
    ensures o in layout && o in ext && ext[o].Contains(p)
    ensures forall q :: q in layout && q in ext && ext[q].Contains(p) ==> q == o
  {
    var base' := base + ext[layout[0]].capacity;
    if p < base' {
      o := layout[0];
    } else {
      o := TilesCover(ext, layout[1..], base', end, p);
    }
    forall q | q in layout && q in ext && ext[q].Contains(p) ensures q == o {
      if q != o {
        TilesDisjoint(ext, layout, base, end, o, q);
      }
    }
  }

  /** The index behind o in the layout, or o itself if it is the last one. */
  ghost function Behind(layout: seq<nat>, o: nat): nat {
    if |layout| < 2 then o else if layout[0] == o then layout[1] else Behind(layout[1..], o)
  }

  /** The block that begins where o's block ends. */
  lemma {:induction false} TilesBehind(ext: Extents, layout: seq<nat>, base: nat, end: nat, o: nat)
    requires Tiles(ext, layout, base, end) && o in layout && NoDuplicates(layout)
    ensures o in ext
    ensures Behind(layout, o) == o <==> o == layout[|layout| - 1]
    ensures o == layout[|layout| - 1] <==> ext[o].offset + ext[o].capacity == end
    ensures var q := Behind(layout, o);
            q != o ==> q in layout && q in ext && ext[q].offset == ext[o].offset + ext[o].capacity
  {
    var rest, base' := layout[1..], base + ext[layout[0]].capacity;
    TilesGrow(ext, rest, base', end);
    if o == layout[0] {
      if rest != [] {
        assert rest[0] in layout && rest[|rest| - 1] in rest && ext[rest[0]].offset == base';
        assert o != layout[|layout| - 1];
      }
    } else {
      assert NoDuplicates(rest);
      TilesBehind(ext, rest, base', end, o);
      assert rest[|rest| - 1] == layout[|layout| - 1];
    }
  }

  /** Moving the first block behind the last one keeps a tiling iff the block is moved whole:
      its file space advances by `moved` bytes at both ends. */
  lemma TilesRotateIff(ext: Extents, layout: seq<nat>, base: nat, end: nat, moved: nat)
    requires Tiles(ext, layout, base, end) && NoDuplicates(layout) && layout != []
    requires moved <= ext[layout[0]].capacity
    ensures var o := layout[0];
            Tiles(ext[o := Extent(end, ext[o].capacity)], Rotate(layout), base + moved, end + moved)
            <==> moved == ext[o].capacity
  {
    var o := layout[0];
    var ext' := ext[o := Extent(end, ext[o].capacity)];
    if moved == ext[o].capacity {
      TilesAppend(ext, layout[1..], base + moved, end, o, moved);
    }
    if Tiles(ext', Rotate(layout), base + moved, end + moved) {
      assert o in Rotate(layout) by { assert Rotate(layout)[|layout| - 1] == o; }
      TilesInside(ext', Rotate(layout), base + moved, end + moved, o);
    }
  }
}
