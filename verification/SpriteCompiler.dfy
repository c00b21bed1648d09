/** The compiler for one colour channel: reduce the colours, then generate the tables. */
module SpriteCompiler {
  import opened SpriteTables
  import Clustering

  /** The generated module shows the reduced image at every pixel exactly when all chunks are square and
      no palette entry is the index of an earlier one; with a distance of 15 or more the second
      condition is about the smallest colour alone. The reduced image stays within the distance. */
  method GeneratePalette(lst: array<int>, maxDist: nat, w: nat, h: nat, nc: nat, nr: nat)
    returns (r: Result<SpriteModule>, ghost reduced: seq<int>)
    requires nc > 0 && nr > 0 && lst.Length == w * h
    requires forall k :: 0 <= k < lst.Length ==> 0 <= lst[k] < 256
    modifies lst
    ensures Clustering.Combined(old(lst[..]), reduced, maxDist) && |reduced| == w * h
    ensures r.MathDomainError? <==> OneColour(reduced)
    ensures r.Ok? ==>
      var m := r.value;
      && m.width == w && m.height == h && m.nc == nc && m.nr == nr && IsPalette(m.palette, reduced)
      && ((forall x, y :: 0 <= x < w && 0 <= y < h ==> Shows(m, reduced, x, y))
          <==> AllSquare(w, h, nc, nr) && Renamable(m.palette))
      && (maxDist >= 15 ==> |m.palette| <= 16 && forall least ::
            IsLeast(m.palette, least) ==> (Renamable(m.palette) <==> least <= m.palette[least]))
  {
    ghost var original := lst[..];
    var counts, groups := Clustering.CombineChannels(lst, maxDist);
    reduced := lst[..];
    assert Clustering.CombinedBy(original, reduced, maxDist, counts, groups);
    r := SplitSpriteTable(lst, w, h, nc, nr);
    if r.Ok? {
      SomeColour(reduced, r.value.palette);
      PaletteOfReduced(original, reduced, r.value.palette, maxDist);
    }
  }

  lemma SomeColour(image: seq<int>, palette: seq<int>)
    requires IsPalette(palette, image) && !OneColour(image)
    ensures palette != []
  {
    assert image[0] in palette;
  }

  predicate IsLeast(palette: seq<int>, least: int) {
    0 <= least < |palette| && forall j :: 0 <= j < |palette| ==> palette[least] <= palette[j]
  }

  lemma PaletteOfReduced(original: seq<int>, reduced: seq<int>, p: seq<int>, dist: nat)
    requires Clustering.Combined(original, reduced, dist) && IsPalette(p, reduced)
    requires forall k :: 0 <= k < |original| ==> 0 <= original[k] < 256
    ensures dist >= 15 && p != [] ==> |p| <= 16 && forall least ::
              IsLeast(p, least) ==> (Renamable(p) <==> least <= p[least])
  {
    if dist >= 15 && p != [] {
      ReducedValues(original, reduced, p, dist);
      ReducedGaps(original, reduced, p, dist);
      LeastDecides(p);
    }
  }

  lemma LeastDecides(p: seq<int>)
    requires Distinct(p) && p != [] && forall j :: 0 <= j < |p| ==> 0 <= p[j] < 256
    requires forall i, j :: 0 <= i < |p| && 0 <= j < |p| && p[i] < p[j] ==> p[i] + 15 < p[j]
    ensures |p| <= 16
    ensures forall least :: IsLeast(p, least) ==> (Renamable(p) <==> least <= p[least])
  {
    var least := LeastIndex(p);
    OnlySmallestCanFail(p, least);
    forall least | IsLeast(p, least)
      ensures Renamable(p) <==> least <= p[least]
    {
      OnlySmallestCanFail(p, least);
    }
  }

  lemma ReducedValues(original: seq<int>, reduced: seq<int>, p: seq<int>, dist: nat)
    requires Clustering.Combined(original, reduced, dist)
    requires forall k :: 0 <= k < |original| ==> 0 <= original[k] < 256
    requires IsPalette(p, reduced)
    ensures forall j :: 0 <= j < |p| ==> 0 <= p[j] < 256
  {
    Clustering.CombinedMoves(original, reduced, dist);
    forall j | 0 <= j < |p| ensures 0 <= p[j] < 256 {
      assert p[j] in p;
      var k :| 0 <= k < |reduced| && reduced[k] == p[j];
      assert reduced[k] in original;
    }
  }

  lemma ReducedGaps(original: seq<int>, reduced: seq<int>, p: seq<int>, dist: nat)
    requires Clustering.Combined(original, reduced, dist) && dist >= 15
    requires IsPalette(p, reduced)
    ensures forall i, j :: 0 <= i < |p| && 0 <= j < |p| && p[i] < p[j] ==> p[i] + 15 < p[j]
  {
    Clustering.CombinedIsApart(original, reduced, dist);
    forall i, j | 0 <= i < |p| && 0 <= j < |p| && p[i] < p[j] ensures p[i] + 15 < p[j] {
      assert p[i] in p && p[j] in p;
      var a :| 0 <= a < |reduced| && reduced[a] == p[i];
      var b :| 0 <= b < |reduced| && reduced[b] == p[j];
      assert reduced[a] + dist < reduced[b];
    }
  }

  lemma {:induction false} LeastIndex(p: seq<int>) returns (k: nat)
    requires p != []
    ensures IsLeast(p, k)
  {
    k := |p| - 1;
    if |p| > 1 {
      var k' := LeastIndex(p[..|p| - 1]);
      if p[k'] < p[k] { k := k'; }
    }
  }

  /** The colour shown at a pixel is within the distance of the original one. */
  ghost predicate ShownClose(m: SpriteModule, original: seq<int>, dist: nat, x: nat, y: nat)
    requires m.nc > 0 && m.nr > 0 && |original| == m.width * m.height && x < m.width && y < m.height
  {
    PixelIndex(x, y, m.width, m.height);
    var c, shown := original[y * m.width + x], Render(m, x, y);
    shown.Some? && c - dist <= shown.value <= c + dist
  }

  /** End to end: wherever the module shows the reduced image, the colour is within the distance of the
      original pixel. */
  lemma ShownColourIsClose(m: SpriteModule, original: seq<int>, reduced: seq<int>, dist: nat)
    requires Clustering.Combined(original, reduced, dist)
    requires m.nc > 0 && m.nr > 0 && |original| == |reduced| == m.width * m.height
    ensures forall x: nat, y: nat :: x < m.width && y < m.height && Shows(m, reduced, x, y) ==>
              ShownClose(m, original, dist, x, y)
  {
    Clustering.CombinedMoves(original, reduced, dist);
    AllShownClose(m, original, reduced, dist);
  }

  lemma AllShownClose(m: SpriteModule, original: seq<int>, reduced: seq<int>, dist: nat)
    requires m.nc > 0 && m.nr > 0 && |original| == |reduced| == m.width * m.height
    requires forall k :: 0 <= k < |original| ==> original[k] - dist <= reduced[k] <= original[k] + dist
    ensures forall x: nat, y: nat :: x < m.width && y < m.height && Shows(m, reduced, x, y) ==>
              ShownClose(m, original, dist, x, y)
  {
    forall x: nat, y: nat | x < m.width && y < m.height && Shows(m, reduced, x, y)
      ensures ShownClose(m, original, dist, x, y)
    {
      PixelIndex(x, y, m.width, m.height);
      var k := y * m.width + x;
      assert original[k] - dist <= reduced[k] <= original[k] + dist;
    }
  }
}
