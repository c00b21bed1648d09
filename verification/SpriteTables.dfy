/** The table generator of the sprite compiler: palette renaming in place, cutting the image into
    chunks, emitting each chunk as rows, and the chain of conditions that selects a chunk. `Render`
    says which colour the generated module shows at a pixel. */
module SpriteTables {
  import opened Words

  datatype Option<+T> = None | Some(value: T)

  /** The script fails with a math domain error when a channel has fewer than two colours. */
  datatype Result<+T> = Ok(value: T) | MathDomainError

  type Table = seq<seq<int>>
  type Key = (nat, nat)

  datatype SpriteModule = SpriteModule(
    palette: seq<int>, order: seq<Key>, tables: map<Key, Table>,
    width: nat, height: nat, nc: nat, nr: nat)

  // ----- palette renaming

  predicate Distinct(s: seq<int>) {
    forall i, j :: 0 <= i < j < |s| ==> s[i] != s[j]
  }

  /** The dictionary keys in insertion order: each colour where it is first seen. */
  function FirstSeen(lst: seq<int>): (colours: seq<int>)
    ensures Distinct(colours)
    ensures forall c :: c in colours <==> c in lst
  {
    if lst == [] then []
    else
      var rest, last := FirstSeen(lst[..|lst| - 1]), lst[|lst| - 1];
      assert lst == lst[..|lst| - 1] + [last];
      if last in rest then rest else rest + [last]
  }

  /** Where a colour is first seen. */
  function FirstAt(image: seq<int>, c: int): (k: nat)
    requires c in image
    ensures k < |image| && image[k] == c && c !in image[..k]
  {
    if image[0] == c then 0
    else
      assert image == [image[0]] + image[1..];
      var k := 1 + FirstAt(image[1..], c);
      assert image[..k] == [image[0]] + image[1..][..k - 1];
      k
  }

  /** Every colour of the image once, in the order in which they are first seen. */
  predicate IsPalette(palette: seq<int>, image: seq<int>) {
    && Distinct(palette)
    && (forall c :: c in palette ==> c in image) && (forall k :: 0 <= k < |image| ==> image[k] in palette)
    && forall i, j :: 0 <= i < j < |palette| ==> FirstAt(image, palette[i]) < FirstAt(image, palette[j])
  }

  lemma FirstAtIs(image: seq<int>, c: int, k: nat)
    requires k < |image| && image[k] == c && c !in image[..k]
    ensures FirstAt(image, c) == k
  {
    var m := FirstAt(image, c);
  }

  lemma FirstAtGrows(image: seq<int>, last: int, c: int)
    requires c in image
    ensures FirstAt(image + [last], c) == FirstAt(image, c)
  {
    var k := FirstAt(image, c);
    assert (image + [last])[..k] == image[..k];
    FirstAtIs(image + [last], c, k);
  }

  lemma FirstAtEnd(image: seq<int>, last: int)
    requires last !in image
    ensures FirstAt(image + [last], last) == |image|
  {
    assert (image + [last])[..|image|] == image;
    FirstAtIs(image + [last], last, |image|);
  }

  /** The keys of the dictionary are the palette in that order. */
  lemma {:induction false} FirstSeenIsPalette(image: seq<int>)
    ensures IsPalette(FirstSeen(image), image)
  {
    if image != [] {
      var before, last := image[..|image| - 1], image[|image| - 1];
      assert image == before + [last];
      FirstSeenIsPalette(before);
      var rest, all := FirstSeen(before), FirstSeen(image);
      forall i, j | 0 <= i < j < |all|
        ensures FirstAt(image, all[i]) < FirstAt(image, all[j])
      {
        FirstAtGrows(before, last, rest[i]);
        if j < |rest| {
          FirstAtGrows(before, last, rest[j]);
        } else {
          FirstAtEnd(before, last);
        }
      }
    }
  }

  /** The counting loop, of which only the order of the keys matters here. */
  method CountedColours(lst: array<int>) returns (colours: seq<int>)
    ensures colours == FirstSeen(lst[..])
  {
    colours := [];
    for i := 0 to lst.Length
      invariant colours == FirstSeen(lst[..i])
    {
      assert lst[..i + 1][..i] == lst[..i];
      if lst[i] !in colours {
        colours := colours + [lst[i]];
      }
    }
    assert lst[..lst.Length] == lst[..];
  }

  /** A value after the first `n` colours have been renamed. */
  function Renamed(colours: seq<int>, v: int, n: nat): int
    requires n <= |colours|
  {
    if n == 0 then v
    else
      var w := Renamed(colours, v, n - 1);
      if w == colours[n - 1] then n - 1 else w
  }

  method RenameInPlace(lst: array<int>, colours: seq<int>)
    modifies lst
    ensures forall k :: 0 <= k < lst.Length ==> lst[k] == Renamed(colours, old(lst[k]), |colours|)
  {
    for i := 0 to |colours|
      invariant forall k :: 0 <= k < lst.Length ==> lst[k] == Renamed(colours, old(lst[k]), i)
    {
      for k := 0 to lst.Length
        invariant forall j :: 0 <= j < k ==> lst[j] == Renamed(colours, old(lst[j]), i + 1)
        invariant forall j :: k <= j < lst.Length ==> lst[j] == Renamed(colours, old(lst[j]), i)
      {
        if lst[k] == colours[i] {
          lst[k] := i;
        }
      }
    }
  }

  /** Once colour `a` has become index `a`, it stays that index or moves to a later one; it stays
      exactly when no later colour has the value `a`. */
  lemma {:induction false} RenamedColour(colours: seq<int>, a: nat, n: nat)
    requires Distinct(colours) && a < |colours| && n <= |colours|
    ensures n <= a ==> Renamed(colours, colours[a], n) == colours[a]
    ensures n > a ==> a <= Renamed(colours, colours[a], n) < n
    ensures n > a ==> (Renamed(colours, colours[a], n) == a <==> forall j :: a < j < n ==> colours[j] != a)
  {
    if n > 0 {
      RenamedColour(colours, a, n - 1);
    }
  }

  /** The condition a caller can check: no colour is the index of an earlier one. */
  predicate Renamable(colours: seq<int>) {
    forall j :: 0 <= j < |colours| ==> !(0 <= colours[j] < j)
  }

  /** Looking a renamed value up in the palette gives the colour back, for every colour, exactly when
      the palette is renamable. */
  lemma RenamingRoundTrip(colours: seq<int>)
    requires Distinct(colours)
    ensures (forall a :: 0 <= a < |colours| ==> 0 <= Renamed(colours, colours[a], |colours|) < |colours|)
    ensures (forall a :: 0 <= a < |colours| ==> GoesBack(colours, a)) <==> Renamable(colours)
  {
    forall a | 0 <= a < |colours|
      ensures a <= Renamed(colours, colours[a], |colours|) < |colours|
      ensures GoesBack(colours, a) <==> forall j :: a < j < |colours| ==> colours[j] != a
    {
      RenamedColour(colours, a, |colours|);
    }
    if forall a :: 0 <= a < |colours| ==> GoesBack(colours, a) {
      forall j | 0 <= j < |colours|
        ensures !(0 <= colours[j] < j)
      {
        var a := colours[j];
        if 0 <= a < |colours| {
          assert GoesBack(colours, a);
        }
      }
    }
  }

  /** Colour `a` is found again under the value it was renamed to. */
  predicate GoesBack(colours: seq<int>, a: nat)
    requires a < |colours|
  {
    var v := Renamed(colours, colours[a], |colours|);
    0 <= v < |colours| && colours[v] == colours[a]
  }

  /** The shortest failure: colours 5 and 0, in this order, are both shown as 0. */
  lemma RenamingCanFail()
    ensures !GoesBack([5, 0], 0) && [5, 0][Renamed([5, 0], 5, 2)] == 0
  {
    assert Renamed([5, 0], 5, 1) == 0;
    assert Renamed([5, 0], 5, 2) == 1;
  }

  /** In a channel of bytes whose values are at least 16 apart, only the smallest value can stand in
      the way, and it does exactly when it is seen too late. */
  lemma OnlySmallestCanFail(colours: seq<int>, least: nat)
    requires Distinct(colours) && (forall j :: 0 <= j < |colours| ==> 0 <= colours[j] < 256)
    requires forall i, j :: 0 <= i < |colours| && 0 <= j < |colours| && colours[i] < colours[j] ==>
               colours[i] + 15 < colours[j]
    requires least < |colours| && forall j :: 0 <= j < |colours| ==> colours[least] <= colours[j]
    ensures |colours| <= 16
    ensures Renamable(colours) <==> least <= colours[least]
  {
    AtMostSixteen(colours, 256);
  }

  /** Values that are at least 16 apart and below `bound`: the count times 16 is below bound + 16. */
  lemma {:induction false} AtMostSixteen(s: seq<int>, bound: int)
    requires Distinct(s) && forall j :: 0 <= j < |s| ==> 0 <= s[j] < bound
    requires forall i, j :: 0 <= i < |s| && 0 <= j < |s| && s[i] < s[j] ==> s[i] + 15 < s[j]
    ensures s != [] ==> 16 * (|s| - 1) < bound
    decreases |s|
  {
    if s != [] {
      assert 0 <= s[0] < bound;
    }
    if |s| > 1 {
      var k := Greatest(s);
      var rest := s[..k] + s[k + 1..];
      assert forall j :: 0 <= j < |rest| ==> rest[j] == s[if j < k then j else j + 1];
      forall j | 0 <= j < |rest| ensures 0 <= rest[j] < bound - 16 {
        assert rest[j] < s[k];
      }
      AtMostSixteen(rest, bound - 16);
    }
  }

  lemma {:induction false} Greatest(s: seq<int>) returns (k: nat)
    requires s != [] && Distinct(s)
    ensures k < |s| && forall j :: 0 <= j < |s| && j != k ==> s[j] < s[k]
    decreases |s|
  {
    var n := |s| - 1;
    k := n;
    if n > 0 {
      var k' := Greatest(s[..n]);
      if s[n] < s[k'] { k := k'; }
    }
  }

  /** Seen on images: of the colours 5 and 0, in two square chunks, the palette is renamable exactly if the pixel
      with 0 comes first. */
  lemma OrderDecides(palette: seq<int>)
    ensures IsPalette(palette, [5, 0]) ==> palette == [5, 0] && !Renamable(palette)
    ensures IsPalette(palette, [0, 5]) ==> palette == [0, 5] && Renamable(palette)
    ensures AllSquare(2, 1, 1, 1)
  {
    PaletteOfTwo(palette, 5, 0);
    PaletteOfTwo(palette, 0, 5);
    if IsPalette(palette, [5, 0]) {
      assert palette[1] == 0;
    }
    AllSquareIff(2, 1, 1);
  }

  lemma TwoValues(s: seq<int>, a: int, b: int)
    requires Distinct(s) && forall k :: 0 <= k < |s| ==> s[k] == a || s[k] == b
    ensures |s| <= 2
  {
    if |s| > 2 {
      TwoOfThree(s, a, b);
    }
  }

  lemma TwoOfThree(s: seq<int>, a: int, b: int)
    requires |s| > 2 && forall k :: 0 <= k < |s| ==> s[k] == a || s[k] == b
    ensures s[0] == s[1] || s[1] == s[2] || s[0] == s[2]
  {}

  lemma PaletteOfTwo(palette: seq<int>, a: int, b: int)
    requires a != b
    ensures IsPalette(palette, [a, b]) ==> palette == [a, b]
  {
    if IsPalette(palette, [a, b]) {
      FirstAtIs([a, b], a, 0);
      FirstAtIs([a, b], b, 1);
      assert a in palette && b in palette;
      var i :| 0 <= i < |palette| && palette[i] == a;
      var j :| 0 <= j < |palette| && palette[j] == b;
      assert i < j;
      forall k | 0 <= k < |palette| ensures palette[k] == a || palette[k] == b {
        assert palette[k] in [a, b];
      }
      TwoValues(palette, a, b);
    }
  }

  /** One colour, or none: the script's logarithm of their number or of one less fails. */
  predicate OneColour(image: seq<int>) {
    forall i, j :: 0 <= i < |image| && 0 <= j < |image| ==> image[i] == image[j]
  }

  lemma OneColourIff(image: seq<int>)
    ensures |FirstSeen(image)| < 2 <==> OneColour(image)
  {
    var p := FirstSeen(image);
    if |p| >= 2 {
      assert p[0] in image && p[1] in image;
      var i :| 0 <= i < |image| && image[i] == p[0];
      var j :| 0 <= j < |image| && image[j] == p[1];
      assert image[i] != image[j];
    } else {
      forall i, j | 0 <= i < |image| && 0 <= j < |image| ensures image[i] == image[j] {
        assert image[i] in p && image[j] in p;
      }
    }
  }

  // ----- cutting the image

  function ChunkCount(size: nat, n: nat): nat
    requires n > 0
  {
    size / n + if size % n != 0 then 1 else 0
  }

  function Dim(i: nat, size: nat, n: nat): int
    requires n > 0
  {
    if i == size / n then size - i * n else n
  }

  function UpperPixel(i: nat, n: nat, size: nat): int {
    Min((i + 1) * n, size)
  }

  /** Chunk `i`, offset `k` is pixel i * n + k, and back. */
  lemma ChunkPixel(i: nat, k: nat, size: nat, n: nat)
    requires n > 0 && i < ChunkCount(size, n) && k < Dim(i, size, n)
    ensures i * n + k < size && (i * n + k) / n == i && (i * n + k) % n == k
  {
    DivMod(size, n);
    if i < size / n {
      MulNonneg(size / n - 1 - i, n);
      assert (size / n - 1 - i) * n == (size / n) * n - n - i * n;
    }
    ModIsUnique(i * n + k, i, k, n);
  }

  lemma PixelChunk(x: nat, size: nat, n: nat)
    requires n > 0 && x < size
    ensures x / n < ChunkCount(size, n) && x % n < Dim(x / n, size, n) <= n
  {
    DivMod(size, n);
    DivMod(x, n);
    var d := x / n - size / n;
    assert d * n == (x / n) * n - (size / n) * n;
    if d > 0 {
      MulNonneg(d - 1, n);
    }
  }

  lemma DimIsPositive(i: nat, size: nat, n: nat)
    requires n > 0 && i < ChunkCount(size, n)
    ensures 0 < Dim(i, size, n) <= n
  {
    DivMod(size, n);
  }

  /** Every chunk has exactly the expected shape. */
  predicate Shaped(tables: map<Key, Table>, w: nat, h: nat, nc: nat, nr: nat)
    requires nc > 0 && nr > 0
  {
    && (forall k :: k in tables ==> k.0 < ChunkCount(w, nc) && k.1 < ChunkCount(h, nr))
    && (forall i: nat, j: nat :: i < ChunkCount(w, nc) && j < ChunkCount(h, nr) ==>
          ShapedAt(tables, w, h, nc, nr, i, j))
  }

  predicate ShapedAt(tables: map<Key, Table>, w: nat, h: nat, nc: nat, nr: nat, i: nat, j: nat)
    requires nc > 0 && nr > 0
  {
    (i, j) in tables && ShapedTable(tables[(i, j)], Dim(i, w, nc), Dim(j, h, nr))
  }

  predicate ShapedTable(t: Table, cols: int, rows: int) {
    |t| == rows && forall r :: 0 <= r < |t| ==> |t[r]| == cols
  }

  function ZeroTable(cols: nat, rows: nat): (t: Table)
    ensures ShapedTable(t, cols, rows)
  {
    seq(rows, _ => seq(cols, _ => 0))
  }

  lemma PixelIndex(x: nat, y: nat, w: nat, h: nat)
    requires x < w && y < h
    ensures 0 <= y * w + x < w * h
  {
    MulNonneg(h - 1 - y, w);
    assert (h - 1 - y) * w == w * h - w - y * w;
    MulNonneg(y, w);
  }

  /** The cell that pixel (x, y) is stored in. */
  function CellOf(tables: map<Key, Table>, x: nat, y: nat, nc: nat, nr: nat): Option<int>
    requires nc > 0 && nr > 0
  {
    var k := (x / nc, y / nr);
    if k in tables && y % nr < |tables[k]| && x % nc < |tables[k][y % nr]|
    then Some(tables[k][y % nr][x % nc]) else None
  }

  /** Pixels up to and excluding (x, y) in row order are stored. */
  ghost predicate FilledTo(tables: map<Key, Table>, lst: seq<int>, w: nat, h: nat, nc: nat, nr: nat, x: nat, y: nat)
    requires nc > 0 && nr > 0 && |lst| == w * h && y <= h && x <= w
  {
    forall x', y' :: 0 <= x' < w && 0 <= y' < h && (y' < y || (y' == y && x' < x)) ==>
      PixelStored(tables, lst, w, h, nc, nr, x', y')
  }

  ghost predicate PixelStored(tables: map<Key, Table>, lst: seq<int>, w: nat, h: nat, nc: nat, nr: nat, x: nat, y: nat)
    requires nc > 0 && nr > 0 && |lst| == w * h && x < w && y < h
  {
    PixelIndex(x, y, w, h);
    CellOf(tables, x, y, nc, nr) == Some(lst[y * w + x])
  }

  /** The loops that create the chunks, full of zeros, in dictionary order. */
  method EmptyTables(w: nat, h: nat, nc: nat, nr: nat) returns (order: seq<Key>, tables: map<Key, Table>)
    requires nc > 0 && nr > 0
    ensures Shaped(tables, w, h, nc, nr)
    ensures forall k :: k in order <==> k in tables
  {
    order, tables := [], map[];
    var cols, rows := ChunkCount(w, nc), ChunkCount(h, nr);
    for i := 0 to cols
      invariant forall k :: k in order <==> k in tables
      invariant forall k :: k in tables ==> k.0 < i && k.1 < rows
      invariant forall a: nat, b: nat :: a < i && b < rows ==> ShapedAt(tables, w, h, nc, nr, a, b)
    {
      for j := 0 to rows
        invariant forall k :: k in order <==> k in tables
        invariant forall k :: k in tables ==> k.0 <= i && k.1 < rows
        invariant forall a: nat, b: nat :: (a < i && b < rows) || (a == i && b < j) ==>
          ShapedAt(tables, w, h, nc, nr, a, b)
      {
        DimIsPositive(i, w, nc);
        DimIsPositive(j, h, nr);
        order := order + [(i, j)];
        ghost var before := tables;
        tables := tables[(i, j) := ZeroTable(Dim(i, w, nc), Dim(j, h, nr))];
        assert forall a: nat, b: nat :: ShapedAt(before, w, h, nc, nr, a, b) ==> ShapedAt(tables, w, h, nc, nr, a, b);
      }
    }
  }

  function Stored(tables: map<Key, Table>, x: nat, y: nat, nc: nat, nr: nat, v: int): map<Key, Table>
    requires nc > 0 && nr > 0 && CellOf(tables, x, y, nc, nr).Some?
  {
    var k := (x / nc, y / nr);
    tables[k := tables[k][y % nr := tables[k][y % nr][x % nc := v]]]
  }

  lemma StoreKeepsOthers(tables: map<Key, Table>, x: nat, y: nat, nc: nat, nr: nat, v: int, x': nat, y': nat)
    requires nc > 0 && nr > 0 && CellOf(tables, x, y, nc, nr).Some?
    requires x != x' || y != y'
    ensures CellOf(Stored(tables, x, y, nc, nr, v), x', y', nc, nr) == CellOf(tables, x', y', nc, nr)
  {
    DivMod(x, nc);
    DivMod(x', nc);
    DivMod(y, nr);
    DivMod(y', nr);
  }

  lemma ShapedCell(tables: map<Key, Table>, w: nat, h: nat, nc: nat, nr: nat, x: nat, y: nat)
    requires nc > 0 && nr > 0 && x < w && y < h && Shaped(tables, w, h, nc, nr)
    ensures CellOf(tables, x, y, nc, nr).Some?
  {
    PixelChunk(x, w, nc);
    PixelChunk(y, h, nr);
    CellInChunk(tables, w, h, nc, nr, x, y, x / nc, y / nr);
  }

  lemma CellInChunk(tables: map<Key, Table>, w: nat, h: nat, nc: nat, nr: nat, x: nat, y: nat, i: nat, j: nat)
    requires nc > 0 && nr > 0 && Shaped(tables, w, h, nc, nr) && i == x / nc && j == y / nr
    requires i < ChunkCount(w, nc) && j < ChunkCount(h, nr) && x % nc < Dim(i, w, nc) && y % nr < Dim(j, h, nr)
    ensures CellOf(tables, x, y, nc, nr).Some?
  {
    ChunkTable(tables, w, h, nc, nr, i, j);
    CellInTable(tables, x, y, nc, nr, Dim(i, w, nc), Dim(j, h, nr));
  }

  lemma CellInTable(tables: map<Key, Table>, x: nat, y: nat, nc: nat, nr: nat, cols: int, rows: int)
    requires nc > 0 && nr > 0 && (x / nc, y / nr) in tables && ShapedTable(tables[(x / nc, y / nr)], cols, rows)
    requires x % nc < cols && y % nr < rows
    ensures CellOf(tables, x, y, nc, nr).Some?
  {}

  lemma ChunkTable(tables: map<Key, Table>, w: nat, h: nat, nc: nat, nr: nat, i: nat, j: nat)
    requires nc > 0 && nr > 0 && Shaped(tables, w, h, nc, nr) && i < ChunkCount(w, nc) && j < ChunkCount(h, nr)
    ensures (i, j) in tables && ShapedTable(tables[(i, j)], Dim(i, w, nc), Dim(j, h, nr))
  {
    assert ShapedAt(tables, w, h, nc, nr, i, j);
  }

  lemma StoreKeepsShape(tables: map<Key, Table>, w: nat, h: nat, nc: nat, nr: nat, x: nat, y: nat, v: int)
    requires nc > 0 && nr > 0 && Shaped(tables, w, h, nc, nr) && CellOf(tables, x, y, nc, nr).Some?
    ensures Shaped(Stored(tables, x, y, nc, nr, v), w, h, nc, nr)
  {
    var t := Stored(tables, x, y, nc, nr, v);
    forall i: nat, j: nat | i < ChunkCount(w, nc) && j < ChunkCount(h, nr)
      ensures ShapedAt(t, w, h, nc, nr, i, j)
    {
      ChunkTable(tables, w, h, nc, nr, i, j);
    }
  }

  lemma StoreFills(tables: map<Key, Table>, lst: seq<int>, w: nat, h: nat, nc: nat, nr: nat, x: nat, y: nat)
    requires nc > 0 && nr > 0 && |lst| == w * h && y < h && x < w
    requires Shaped(tables, w, h, nc, nr) && FilledTo(tables, lst, w, h, nc, nr, x, y)
    ensures 0 <= y * w + x < |lst| && CellOf(tables, x, y, nc, nr).Some?
    ensures var t := Stored(tables, x, y, nc, nr, lst[y * w + x]);
            Shaped(t, w, h, nc, nr) && FilledTo(t, lst, w, h, nc, nr, x + 1, y)
  {
    PixelIndex(x, y, w, h);
    ShapedCell(tables, w, h, nc, nr, x, y);
    StoreKeepsShape(tables, w, h, nc, nr, x, y, lst[y * w + x]);
    var t := Stored(tables, x, y, nc, nr, lst[y * w + x]);
    forall x', y' | 0 <= x' < w && 0 <= y' < h && (y' < y || (y' == y && x' < x + 1))
      ensures PixelStored(t, lst, w, h, nc, nr, x', y')
    {
      if x' != x || y' != y {
        assert PixelStored(tables, lst, w, h, nc, nr, x', y');
        StoreKeepsOthers(tables, x, y, nc, nr, lst[y * w + x], x', y');
      }
    }
  }

  /** The loops over the pixels. */
  method FillTables(lst: seq<int>, w: nat, h: nat, nc: nat, nr: nat, empty: map<Key, Table>)
    returns (tables: map<Key, Table>)
    requires nc > 0 && nr > 0 && |lst| == w * h && Shaped(empty, w, h, nc, nr)
    ensures Shaped(tables, w, h, nc, nr) && tables.Keys == empty.Keys
    ensures FilledTo(tables, lst, w, h, nc, nr, 0, h)
  {
    tables := empty;
    for y := 0 to h
      invariant Shaped(tables, w, h, nc, nr) && FilledTo(tables, lst, w, h, nc, nr, 0, y)
      invariant tables.Keys == empty.Keys
    {
      for x := 0 to w
        invariant Shaped(tables, w, h, nc, nr) && FilledTo(tables, lst, w, h, nc, nr, x, y)
        invariant tables.Keys == empty.Keys
      {
        StoreFills(tables, lst, w, h, nc, nr, x, y);
        tables := Stored(tables, x, y, nc, nr, lst[y * w + x]);
      }
    }
  }

  // ----- emitting a chunk

  /** The chunk in row order, as the array reshape delivers it. */
  function Flat(t: Table): seq<int> {
    if t == [] then [] else Flat(t[..|t| - 1]) + t[|t| - 1]
  }

  lemma {:induction false} FlatAt(t: Table, cols: nat, rows: nat, r: nat, c: nat)
    requires ShapedTable(t, cols, rows) && r < rows && c < cols
    ensures |Flat(t)| == cols * rows
    ensures 0 <= r * cols + c < |Flat(t)| && Flat(t)[r * cols + c] == t[r][c]
    decreases rows
  {
    var top := t[..rows - 1];
    FlatLength(top, cols, rows - 1);
    assert cols * (rows - 1) + cols == cols * rows;
    PixelIndex(c, r, cols, rows);
    if r < rows - 1 {
      FlatAt(top, cols, rows - 1, r, c);
    } else {
      assert r * cols == cols * (rows - 1);
    }
  }

  lemma {:induction false} FlatLength(t: Table, cols: nat, rows: nat)
    requires ShapedTable(t, cols, rows)
    ensures |Flat(t)| == cols * rows
    decreases rows
  {
    if rows > 0 {
      FlatLength(t[..rows - 1], cols, rows - 1);
      assert cols * (rows - 1) + cols == cols * rows;
    }
  }

  /** The loop that writes the rows: one is opened when the running index is a multiple of `width` and
      closed after `width` entries or after the last one. */
  method ConstructSpriteTable(lst: seq<int>, width: nat, height: nat) returns (rows: Table)
    requires width > 0 && height > 0 && |lst| == width * height
    ensures ShapedTable(rows, width, height) && Flat(rows) == lst
  {
    rows := [];
    var current: seq<int> := [];
    var i := 0;
    while i < |lst|
      invariant i <= |lst|
      invariant |current| < width && i == |rows| * width + |current|
      invariant forall r :: 0 <= r < |rows| ==> |rows[r]| == width
      invariant Flat(rows) + current == lst[..i]
    {
      ModIsUnique(i, |rows|, |current|, width);
      if i % width == 0 {
        current := [];
      }
      TakeOneMore(lst, i);
      Regroup(Flat(rows), current, [lst[i]]);
      current := current + [lst[i]];
      if i == |lst| - 1 || i % width == width - 1 {
        if i == |lst| - 1 {
          LastRowIsFull(|rows|, |current|, width, height);
        }
        assert (rows + [current])[..|rows|] == rows;
        assert (|rows| + 1) * width == |rows| * width + width;
        rows := rows + [current];
        current := [];
      }
      i := i + 1;
    }
    assert lst[..i] == lst;
    LastRowIsFull(|rows|, |current|, width, height);
    ModIsUnique(i, height, 0, width);
    ModIsUnique(i, |rows|, |current|, width);
  }

  lemma LastRowIsFull(rows: nat, open: nat, width: nat, height: nat)
    requires width > 0 && open <= width && rows * width + open == width * height
    ensures open == 0 || open == width
  {
    if 0 < open < width {
      ModIsUnique(width * height, rows, open, width);
      ModIsUnique(width * height, height, 0, width);
    }
  }

  /** The last loop of the generator. The shape of the numpy array is (rows, columns), but it is
      unpacked as (width, height): rows of the wrong length are emitted unless the chunk is square. */
  method EmitTables(tables: map<Key, Table>, order: seq<Key>, w: nat, h: nat, nc: nat, nr: nat)
    returns (emitted: map<Key, Table>)
    requires nc > 0 && nr > 0 && Shaped(tables, w, h, nc, nr)
    requires forall k :: k in order <==> k in tables
    ensures emitted.Keys == tables.Keys
    ensures forall k :: k in tables ==> Emitted(tables[k], emitted[k], Dim(k.0, w, nc), Dim(k.1, h, nr))
  {
    emitted := map[];
    for n := 0 to |order|
      invariant forall k :: k in emitted <==> k in order[..n]
      invariant forall k :: k in emitted ==>
        k in tables && Emitted(tables[k], emitted[k], Dim(k.0, w, nc), Dim(k.1, h, nr))
    {
      var k := order[n];
      assert k in order;
      DimIsPositive(k.0, w, nc);
      DimIsPositive(k.1, h, nr);
      var subtableWidth: nat, subtableHeight: nat := Dim(k.1, h, nr), Dim(k.0, w, nc);
      ChunkTable(tables, w, h, nc, nr, k.0, k.1);
      FlatLength(tables[k], subtableHeight, subtableWidth);
      var rows := ConstructSpriteTable(Flat(tables[k]), subtableWidth, subtableHeight);
      TakeOneMore(order, n);
      emitted := emitted[k := rows];
    }
    assert order[..|order|] == order;
  }

  /** `e` lists the cells of `t` (cols x rows) in the same order but in rows of length `rows`. */
  predicate Emitted(t: Table, e: Table, cols: int, rows: int) {
    ShapedTable(e, rows, cols) && Flat(e) == Flat(t)
  }

  lemma SquareIsFaithful(t: Table, e: Table, n: nat, r: nat, c: nat)
    requires ShapedTable(t, n, n) && Emitted(t, e, n, n) && r < n && c < n
    ensures e[r][c] == t[r][c]
  {
    FlatAt(t, n, n, r, c);
    FlatAt(e, n, n, r, c);
  }

  // ----- the generated module

  /** The condition generated for chunk `k`. */
  predicate Condition(m: SpriteModule, k: Key, x: nat, y: nat) {
    && k.0 * m.nc <= x < UpperPixel(k.0, m.nc, m.width)
    && k.1 * m.nr <= y < UpperPixel(k.1, m.nr, m.height)
  }

  lemma ConditionMeansChunk(m: SpriteModule, k: Key, x: nat, y: nat)
    requires m.nc > 0 && m.nr > 0 && x < m.width && y < m.height
    ensures Condition(m, k, x, y) <==> k == (x / m.nc, y / m.nr)
  {
    BandMeansChunk(k.0, m.nc, x, m.width);
    BandMeansChunk(k.1, m.nr, y, m.height);
  }

  lemma BandMeansChunk(i: nat, n: nat, x: nat, size: nat)
    requires n > 0 && x < size
    ensures i * n <= x < UpperPixel(i, n, size) <==> i == x / n
  {
    assert (i + 1) * n == i * n + n;
    DivMod(x, n);
    if i * n <= x < i * n + n {
      ModIsUnique(x, i, x - i * n, n);
    }
  }

  /** The if / else-if chain over the chunks. */
  function Select(m: SpriteModule, keys: seq<Key>, x: nat, y: nat): Option<Key> {
    if keys == [] then None
    else if Condition(m, keys[0], x, y) then Some(keys[0])
    else Select(m, keys[1..], x, y)
  }

  lemma {:induction false} SelectFinds(m: SpriteModule, keys: seq<Key>, x: nat, y: nat)
    requires m.nc > 0 && m.nr > 0 && x < m.width && y < m.height
    ensures Select(m, keys, x, y)
         == if (x / m.nc, y / m.nr) in keys then Some((x / m.nc, y / m.nr)) else None
    decreases |keys|
  {
    if keys != [] {
      ConditionMeansChunk(m, keys[0], x, y);
      SelectFinds(m, keys[1..], x, y);
    }
  }

  /** For a module that covers the image, exactly one generated condition holds at each pixel. */
  lemma ExactlyOneCondition(m: SpriteModule, x: nat, y: nat)
    requires m.nc > 0 && m.nr > 0 && x < m.width && y < m.height
    requires forall i: nat, j: nat :: i < ChunkCount(m.width, m.nc) && j < ChunkCount(m.height, m.nr) ==>
               (i, j) in m.order
    ensures exists k :: k in m.order && Condition(m, k, x, y)
    ensures forall k, k' :: Condition(m, k, x, y) && Condition(m, k', x, y) ==> k == k'
    ensures Select(m, m.order, x, y) == Some((x / m.nc, y / m.nr))
  {
    PixelChunk(x, m.width, m.nc);
    PixelChunk(y, m.height, m.nr);
    var here := (x / m.nc, y / m.nr);
    assert here in m.order;
    SelectFinds(m, m.order, x, y);
    ConditionMeansChunk(m, here, x, y);
    forall k, k' | Condition(m, k, x, y) && Condition(m, k', x, y)
      ensures k == k'
    {
      ConditionMeansChunk(m, k, x, y);
      ConditionMeansChunk(m, k', x, y);
    }
  }

  /** The palette index the selected table yields; reading outside a table yields nothing. */
  function IndexAt(m: SpriteModule, x: nat, y: nat): Option<int>
    requires m.nc > 0 && m.nr > 0
  {
    match Select(m, m.order, x, y)
    case None => Some(0)
    case Some(k) =>
      if k in m.tables && y % m.nr < |m.tables[k]| && x % m.nc < |m.tables[k][y % m.nr]|
      then Some(m.tables[k][y % m.nr][x % m.nc]) else None
  }

  function Render(m: SpriteModule, x: nat, y: nat): Option<int>
    requires m.nc > 0 && m.nr > 0
  {
    match IndexAt(m, x, y)
    case Some(v) => if 0 <= v < |m.palette| then Some(m.palette[v]) else None
    case None => None
  }

  /** Every chunk of the image is square. */
  predicate AllSquare(w: nat, h: nat, nc: nat, nr: nat)
    requires nc > 0 && nr > 0
  {
    forall i: nat, j: nat :: i < ChunkCount(w, nc) && j < ChunkCount(h, nr) ==> SquareAt(w, h, nc, nr, i, j)
  }

  predicate SquareAt(w: nat, h: nat, nc: nat, nr: nat, i: nat, j: nat)
    requires nc > 0 && nr > 0
  {
    Dim(i, w, nc) == Dim(j, h, nr)
  }

  /** Every chunk has its condition, and its table has as many rows as the chunk has columns. */
  ghost predicate Tabled(m: SpriteModule) {
    && m.nc > 0 && m.nr > 0
    && (forall i: nat, j: nat :: i < ChunkCount(m.width, m.nc) && j < ChunkCount(m.height, m.nr) ==> TabledAt(m, i, j))
  }

  predicate TabledAt(m: SpriteModule, i: nat, j: nat)
    requires m.nc > 0 && m.nr > 0
  {
    && (i, j) in m.order && (i, j) in m.tables
    && ShapedTable(m.tables[(i, j)], Dim(j, m.height, m.nr), Dim(i, m.width, m.nc))
  }

  /** And the tables hold, chunk by chunk, the indices of `lst`. */
  ghost predicate GeneratedFrom(m: SpriteModule, lst: seq<int>, tables: map<Key, Table>) {
    && Tabled(m) && |lst| == m.width * m.height
    && Shaped(tables, m.width, m.height, m.nc, m.nr)
    && FilledTo(tables, lst, m.width, m.height, m.nc, m.nr, 0, m.height)
    && m.tables.Keys == tables.Keys
    && forall k :: k in tables ==> Flat(m.tables[k]) == Flat(tables[k])
  }

  lemma IndexOfChunk(m: SpriteModule, x: nat, y: nat)
    requires Tabled(m) && x < m.width && y < m.height
    ensures IndexAt(m, x, y) == CellOf(m.tables, x, y, m.nc, m.nr)
    ensures IndexAt(m, x, y).Some? <==>
              y % m.nr < Dim(x / m.nc, m.width, m.nc) && x % m.nc < Dim(y / m.nr, m.height, m.nr)
  {
    PixelChunk(x, m.width, m.nc);
    PixelChunk(y, m.height, m.nr);
    forall i: nat, j: nat | i < ChunkCount(m.width, m.nc) && j < ChunkCount(m.height, m.nr)
      ensures (i, j) in m.order
    {
      assert TabledAt(m, i, j);
    }
    ExactlyOneCondition(m, x, y);
    assert TabledAt(m, x / m.nc, y / m.nr);
  }

  lemma SquareChunkShows(m: SpriteModule, lst: seq<int>, tables: map<Key, Table>, x: nat, y: nat)
    requires GeneratedFrom(m, lst, tables) && x < m.width && y < m.height
    requires Dim(x / m.nc, m.width, m.nc) == Dim(y / m.nr, m.height, m.nr)
    ensures ShowsIndex(m, lst, x, y)
  {
    PixelChunk(x, m.width, m.nc);
    PixelChunk(y, m.height, m.nr);
    IndexOfChunk(m, x, y);
    var k := (x / m.nc, y / m.nr);
    assert PixelStored(tables, lst, m.width, m.height, m.nc, m.nr, x, y);
    assert TabledAt(m, k.0, k.1);
    ChunkTable(tables, m.width, m.height, m.nc, m.nr, k.0, k.1);
    SquareIsFaithful(tables[k], m.tables[k], Dim(x / m.nc, m.width, m.nc), y % m.nr, x % m.nc);
  }

  /** In a chunk that is not square some pixel is read outside its table. */
  lemma OblongChunkFails(m: SpriteModule, i: nat, j: nat) returns (x: nat, y: nat)
    requires Tabled(m)
    requires i < ChunkCount(m.width, m.nc) && j < ChunkCount(m.height, m.nr)
    requires Dim(i, m.width, m.nc) != Dim(j, m.height, m.nr)
    ensures x < m.width && y < m.height && IndexAt(m, x, y) == None
  {
    DimIsPositive(i, m.width, m.nc);
    DimIsPositive(j, m.height, m.nr);
    var cols: nat, rows: nat := Dim(i, m.width, m.nc), Dim(j, m.height, m.nr);
    var c: nat, r: nat := if rows > cols then 0 else cols - 1, if rows > cols then rows - 1 else 0;
    ChunkPixel(i, c, m.width, m.nc);
    ChunkPixel(j, r, m.height, m.nr);
    x, y := i * m.nc + c, j * m.nr + r;
    IndexOfChunk(m, x, y);
  }

  ghost predicate ShowsIndex(m: SpriteModule, lst: seq<int>, x: nat, y: nat)
    requires m.nc > 0 && m.nr > 0 && |lst| == m.width * m.height && x < m.width && y < m.height
  {
    PixelIndex(x, y, m.width, m.height);
    IndexAt(m, x, y) == Some(lst[y * m.width + x])
  }

  /** The chunk layer shows every index of the list exactly when every chunk is square; otherwise
      some pixel shows nothing. */
  lemma ChunksShowListIfSquare(m: SpriteModule, lst: seq<int>, tables: map<Key, Table>, x: nat, y: nat)
    requires GeneratedFrom(m, lst, tables) && AllSquare(m.width, m.height, m.nc, m.nr)
    requires x < m.width && y < m.height
    ensures ShowsIndex(m, lst, x, y)
  {
    PixelChunk(x, m.width, m.nc);
    PixelChunk(y, m.height, m.nr);
    assert SquareAt(m.width, m.height, m.nc, m.nr, x / m.nc, y / m.nr);
    SquareChunkShows(m, lst, tables, x, y);
  }

  lemma ChunksFailUnlessSquare(m: SpriteModule) returns (x: nat, y: nat)
    requires Tabled(m) && !AllSquare(m.width, m.height, m.nc, m.nr)
    ensures x < m.width && y < m.height && IndexAt(m, x, y) == None && Render(m, x, y) == None
  {
    var i: nat, j: nat :| i < ChunkCount(m.width, m.nc) && j < ChunkCount(m.height, m.nr)
                          && !SquareAt(m.width, m.height, m.nc, m.nr, i, j);
    x, y := OblongChunkFails(m, i, j);
  }

  /** With the same chunk size both ways, as the script calls it: the image sides are multiples of
      the chunk size, or the image is one square smaller than a chunk. */
  lemma AllSquareIff(w: nat, h: nat, n: nat)
    requires w > 0 && h > 0 && n > 0
    ensures AllSquare(w, h, n, n) <==> (w % n == 0 && h % n == 0) || (w == h && w < n)
  {
    DivMod(w, n);
    DivMod(h, n);
    LastChunk(w, n);
    LastChunk(h, n);
    if w % n == 0 && h % n == 0 {
      assert forall i: nat :: i < ChunkCount(w, n) ==> Dim(i, w, n) == n;
      assert forall j: nat :: j < ChunkCount(h, n) ==> Dim(j, h, n) == n;
    } else if AllSquare(w, h, n, n) {
      assert SquareAt(w, h, n, n, 0, 0);
      assert SquareAt(w, h, n, n, ChunkCount(w, n) - 1, 0);
      assert SquareAt(w, h, n, n, 0, ChunkCount(h, n) - 1);
    }
  }

  /** The first chunk is full unless it is the only one; the last is full only for exact multiples. */
  lemma LastChunk(size: nat, n: nat)
    requires size > 0 && n > 0
    ensures ChunkCount(size, n) > 0
    ensures Dim(0, size, n) == if size < n then size else n
    ensures Dim(ChunkCount(size, n) - 1, size, n) == if size % n == 0 then n else size % n
  {
    DivMod(size, n);
    if size < n {
      ModIsUnique(size, 0, size, n);
    }
  }

  ghost predicate Shows(m: SpriteModule, image: seq<int>, x: nat, y: nat)
    requires m.nc > 0 && m.nr > 0 && |image| == m.width * m.height && x < m.width && y < m.height
  {
    PixelIndex(x, y, m.width, m.height);
    Render(m, x, y) == Some(image[y * m.width + x])
  }

  /** The whole generator. The palette lists the colours in the order in which the image first shows them; and the
      module shows the image it was given, at every pixel, exactly when all chunks are square and no colour is
      the index of an earlier one. */
  method SplitSpriteTable(lst: array<int>, w: nat, h: nat, nc: nat, nr: nat) returns (r: Result<SpriteModule>)
    requires nc > 0 && nr > 0 && lst.Length == w * h
    modifies lst
    ensures r.MathDomainError? <==> OneColour(old(lst[..]))
    ensures r.Ok? ==>
      var m, image := r.value, old(lst[..]);
      && m.width == w && m.height == h && m.nc == nc && m.nr == nr
      && IsPalette(m.palette, image)
      && ((forall x, y :: 0 <= x < w && 0 <= y < h ==> Shows(m, image, x, y))
          <==> AllSquare(w, h, nc, nr) && Renamable(m.palette))
  {
    var colours := CountedColours(lst);
    OneColourIff(lst[..]);
    FirstSeenIsPalette(lst[..]);
    if |colours| < 2 {
      return MathDomainError;
    }
    ghost var image := lst[..];
    RenameInPlace(lst, colours);
    var order, empty := EmptyTables(w, h, nc, nr);
    var tables := FillTables(lst[..], w, h, nc, nr, empty);
    var emitted := EmitTables(tables, order, w, h, nc, nr);
    var m := SpriteModule(colours, order, emitted, w, h, nc, nr);
    EmittedIsTabled(m, tables);
    WholeModule(m, image, lst[..], tables);
    r := Ok(m);
  }

  lemma EmittedIsTabled(m: SpriteModule, tables: map<Key, Table>)
    requires m.nc > 0 && m.nr > 0 && Shaped(tables, m.width, m.height, m.nc, m.nr)
    requires (forall k :: k in m.order <==> k in tables) && m.tables.Keys == tables.Keys
    requires forall k :: k in tables ==>
               Emitted(tables[k], m.tables[k], Dim(k.0, m.width, m.nc), Dim(k.1, m.height, m.nr))
    ensures Tabled(m)
  {
    forall i: nat, j: nat | i < ChunkCount(m.width, m.nc) && j < ChunkCount(m.height, m.nr)
      ensures TabledAt(m, i, j)
    {
      ChunkTable(tables, m.width, m.height, m.nc, m.nr, i, j);
      assert Emitted(tables[(i, j)], m.tables[(i, j)], Dim(i, m.width, m.nc), Dim(j, m.height, m.nr));
    }
  }

  lemma WholeModule(m: SpriteModule, image: seq<int>, lst: seq<int>, tables: map<Key, Table>)
    requires GeneratedFrom(m, lst, tables) && |image| == |lst| && IsPalette(m.palette, image)
    requires forall k :: 0 <= k < |lst| ==> lst[k] == Renamed(m.palette, image[k], |m.palette|)
    ensures (forall x, y :: 0 <= x < m.width && 0 <= y < m.height ==> Shows(m, image, x, y))
       <==> AllSquare(m.width, m.height, m.nc, m.nr) && Renamable(m.palette)
  {
    if !AllSquare(m.width, m.height, m.nc, m.nr) {
      var x, y := ChunksFailUnlessSquare(m);
      assert !Shows(m, image, x, y);
    } else if Renamable(m.palette) {
      RenamableShows(m, image, lst, tables);
    } else {
      var x, y := UnrenamableFails(m, image, lst, tables);
    }
  }

  lemma RenamableShows(m: SpriteModule, image: seq<int>, lst: seq<int>, tables: map<Key, Table>)
    requires GeneratedFrom(m, lst, tables) && |image| == |lst| && IsPalette(m.palette, image)
    requires forall k :: 0 <= k < |lst| ==> lst[k] == Renamed(m.palette, image[k], |m.palette|)
    requires AllSquare(m.width, m.height, m.nc, m.nr) && Renamable(m.palette)
    ensures forall x, y :: 0 <= x < m.width && 0 <= y < m.height ==> Shows(m, image, x, y)
  {
    RenamingRoundTrip(m.palette);
    forall x, y | 0 <= x < m.width && 0 <= y < m.height ensures Shows(m, image, x, y) {
      var a := PixelShows(m, image, lst, tables, x, y);
    }
  }

  lemma UnrenamableFails(m: SpriteModule, image: seq<int>, lst: seq<int>, tables: map<Key, Table>)
    returns (x: nat, y: nat)
    requires GeneratedFrom(m, lst, tables) && |image| == |lst| && IsPalette(m.palette, image)
    requires forall k :: 0 <= k < |lst| ==> lst[k] == Renamed(m.palette, image[k], |m.palette|)
    requires AllSquare(m.width, m.height, m.nc, m.nr) && !Renamable(m.palette)
    ensures x < m.width && y < m.height && !Shows(m, image, x, y)
  {
    var a, k := LostColour(m.palette, image);
    x, y := Coordinates(k, m.width, m.height);
    var b := PixelShows(m, image, lst, tables, x, y);
    assert a == b;
  }

  lemma LostColour(palette: seq<int>, image: seq<int>) returns (a: nat, k: nat)
    requires IsPalette(palette, image) && !Renamable(palette)
    ensures a < |palette| && !GoesBack(palette, a) && k < |image| && image[k] == palette[a]
  {
    RenamingRoundTrip(palette);
    a :| a < |palette| && !GoesBack(palette, a);
    assert palette[a] in image;
    k :| k < |image| && image[k] == palette[a];
  }

  /** With square chunks a pixel is shown exactly when its colour survives the renaming. */
  lemma PixelShows(m: SpriteModule, image: seq<int>, lst: seq<int>, tables: map<Key, Table>, x: nat, y: nat)
    returns (a: nat)
    requires GeneratedFrom(m, lst, tables) && |image| == |lst| && IsPalette(m.palette, image)
    requires forall k :: 0 <= k < |lst| ==> lst[k] == Renamed(m.palette, image[k], |m.palette|)
    requires AllSquare(m.width, m.height, m.nc, m.nr) && x < m.width && y < m.height
    ensures a < |m.palette| && 0 <= y * m.width + x < |image| && m.palette[a] == image[y * m.width + x]
    ensures Shows(m, image, x, y) <==> GoesBack(m.palette, a)
  {
    PixelIndex(x, y, m.width, m.height);
    ChunksShowListIfSquare(m, lst, tables, x, y);
    a := ColourOf(m.palette, image, y * m.width + x);
  }

  lemma ColourOf(palette: seq<int>, image: seq<int>, k: int) returns (a: nat)
    requires IsPalette(palette, image) && 0 <= k < |image|
    ensures a < |palette| && palette[a] == image[k]
  {
    assert image[k] in palette;
    a :| 0 <= a < |palette| && palette[a] == image[k];
  }

  lemma Coordinates(k: nat, w: nat, h: nat) returns (x: nat, y: nat)
    requires k < w * h
    ensures x < w && y < h && k == y * w + x
  {
    assert w != 0;
    x, y := k % w, k / w;
    DivMod(k, w);
    if y >= h {
      MulNonneg(y - h, w);
    }
  }
}
