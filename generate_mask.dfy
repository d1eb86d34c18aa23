/** generate_mask.py: the per-class binary mask of a class-index raster
    (extract_mask_by_value) and the class-ID table loaded from labels.txt (main). */
module GenerateMask {
  import opened Raster
  import opened PyStr
  import opened SortedIds

  /** The two values of a binary mask. */
  const Foreground: int := 255
  const Background: int := 0

  /** A raster whose every cell is Foreground or Background. */
  predicate IsBinaryMask(m: Grid) {
    forall y, x :: 0 <= y < |m| && 0 <= x < |m[y]| ==> m[y][x] == Foreground || m[y][x] == Background
  }

  /** One cell of the mask: 255 if the pixel is the target, else 0. */
  function NewPixel(pixelValue: int, target: int): int {
    if pixelValue == target then Foreground else Background
  }

  /** `(img_array == target_value).astype(np.uint8) * 255`: the elementwise
      equality test, scaled to 0 / 255. */
  function ExtractMaskByValue(img: Grid, target: int): (mask: Grid)
    ensures |mask| == |img|
    ensures forall y :: 0 <= y < |img| ==> |mask[y]| == |img[y]|
    ensures forall y, x :: 0 <= y < |img| && 0 <= x < |img[y]| ==>
      (mask[y][x] == Foreground <==> img[y][x] == target) &&
      (mask[y][x] == Background <==> img[y][x] != target)
    ensures IsBinaryMask(mask) && FitsUint8(mask)
  {
    seq(|img|, y requires 0 <= y < |img| =>
      seq(|img[y]|, x requires 0 <= x < |img[y]| =>
        NewPixel(img[y][x], target)))
  }

  /** The mask has the height and width of its input. */
  lemma MaskShape(img: Grid, target: int, height: nat, width: nat)
    requires IsRect(img, height, width)
    ensures IsRect(ExtractMaskByValue(img, target), height, width)
  {
  }

  /** The mask has as many 255 pixels as the input has cells equal to the
      target, and all its other pixels are 0. */
  lemma MaskCounts(img: Grid, target: int)
    ensures Count(ExtractMaskByValue(img, target), Foreground) == Count(img, target)
    ensures Count(ExtractMaskByValue(img, target), Background) == CellCount(img) - Count(img, target)
  {
    var mask := ExtractMaskByValue(img, target);
    CountCorresponds(mask, img, Foreground, target);
    TwoValuedCount(mask, Foreground, Background);
    CellCountSameShape(mask, img);
  }

  /** For a height x width input, at most height * width mask pixels are 255. */
  lemma ForegroundBound(img: Grid, target: int, height: nat, width: nat)
    requires IsRect(img, height, width)
    ensures Count(ExtractMaskByValue(img, target), Foreground) <= height * width
  {
    MaskCounts(img, target);
    CellCountOfRect(img, height, width);
  }

  lemma {:induction false} CellCountSameShape(m: Grid, g: Grid)
    requires |m| == |g|
    requires forall y :: 0 <= y < |m| ==> |m[y]| == |g[y]|
    ensures CellCount(m) == CellCount(g)
  {
    if m != [] {
      CellCountSameShape(m[1..], g[1..]);
    }
  }

  /** One mask per ID of `ids`, in that order, each paired with its ID. */
  function MasksOf(raster: Grid, ids: seq<int>): (masks: seq<(int, Grid)>)
    ensures |masks| == |ids|
    ensures forall i :: 0 <= i < |ids| ==> masks[i] == (ids[i], ExtractMaskByValue(raster, ids[i]))
    ensures forall id :: id in ids <==> exists i :: 0 <= i < |masks| && masks[i].0 == id
  {
    if ids == [] then []
    else [(ids[0], ExtractMaskByValue(raster, ids[0]))] + MasksOf(raster, ids[1..])
  }

  /** The masks the per-class loop of main extracts from one sample's raster:
      it iterates mask_id_to_name_map.items() in insertion order, which is
      ascending ID because LoadMaskClasses inserts IDs as the line index grows.
      Every ID of the table appears once, no other ID does, and each is paired
      with the mask of the raster for it. */
  function MasksFor(raster: Grid, table: map<int, string>): (masks: seq<(int, Grid)>)
    ensures forall id :: id in table <==> exists i :: 0 <= i < |masks| && masks[i].0 == id
    ensures forall i, j :: 0 <= i < j < |masks| ==> masks[i].0 < masks[j].0
    ensures forall i :: 0 <= i < |masks| ==> masks[i].1 == ExtractMaskByValue(raster, masks[i].0)
  {
    MasksOf(raster, Ascending(table.Keys))
  }

  /** Reading the class of pixel (x, y) back from a list of masks alone: the
      ID of the first mask that is 255 there, or Background if none is. */
  function FiringClass(masks: seq<(int, Grid)>, y: nat, x: nat): int {
    if masks == [] then Background
    else if y < |masks[0].1| && x < |masks[0].1[y]| && masks[0].1[y][x] == Foreground then masks[0].0
    else FiringClass(masks[1..], y, x)
  }

  /** For the masks of any list of IDs, the first one that fires at a pixel
      names the pixel's value when that value is in the list. */
  lemma {:induction false} FiringClassOfMasks(raster: Grid, ids: seq<int>, y: nat, x: nat)
    requires y < |raster| && x < |raster[y]|
    ensures FiringClass(MasksOf(raster, ids), y, x) == if raster[y][x] in ids then raster[y][x] else Background
  {
    if ids != [] {
      assert MasksOf(raster, ids)[1..] == MasksOf(raster, ids[1..]);
      FiringClassOfMasks(raster, ids[1..], y, x);
    }
  }

  /** Recombining the per-class masks of a table gives back the raster on every
      pixel of a class in the table, and Background on every other pixel. */
  lemma MasksReconstructRaster(raster: Grid, table: map<int, string>, y: nat, x: nat)
    requires y < |raster| && x < |raster[y]|
    ensures FiringClass(MasksFor(raster, table), y, x) == if raster[y][x] in table then raster[y][x] else Background
  {
    FiringClassOfMasks(raster, Ascending(table.Keys), y, x);
  }

  // ---------------------------------------------------------------------
  // The class-ID table of labels.txt

  /** LabelMe's reserved markers on the first two lines of labels.txt. */
  const IgnoreName: string := "__ignore__"
  const BackgroundName: string := "_background_"

  predicate IsReserved(name: string) {
    name == IgnoreName || name == BackgroundName
  }

  /** Line i of labels.txt gets class ID i - 1: __ignore__ is -1, _background_ is 0. */
  function ClassId(lineIndex: nat): int {
    lineIndex - 1
  }

  /** Line i yields a mask class: its ID is at least 1 and its stripped name is
      not a reserved marker. */
  predicate Yields(lines: seq<string>, i: nat)
    requires i < |lines|
  {
    ClassId(i) >= 1 && !IsReserved(Strip(lines[i]))
  }

  datatype LoadError = NoValidMaskClasses

  datatype Result<T> = Ok(value: T) | Err(error: LoadError)

  /** The IDs the loop over labels.txt inserts for its first n lines, in the
      order it inserts them. */
  function InsertionOrder(lines: seq<string>, n: nat): seq<int>
    requires n <= |lines|
  {
    if n == 0 then []
    else InsertionOrder(lines, n - 1) + (if Yields(lines, n - 1) then [ClassId(n - 1)] else [])
  }

  /** The loop inserts IDs in ascending order, each below the ID of the next
      line, and it inserts exactly the IDs of the lines that yield a class. */
  lemma {:induction false} InsertionOrderFacts(lines: seq<string>, n: nat)
    requires n <= |lines|
    ensures forall a, b :: 0 <= a < b < |InsertionOrder(lines, n)| ==> InsertionOrder(lines, n)[a] < InsertionOrder(lines, n)[b]
    ensures forall id :: id in InsertionOrder(lines, n) ==> id < ClassId(n)
    ensures forall id :: id in InsertionOrder(lines, n) <==> 1 <= id && id + 1 < n && Yields(lines, id + 1)
  {
    if n > 0 {
      var before := InsertionOrder(lines, n - 1);
      InsertionOrderFacts(lines, n - 1);
      if Yields(lines, n - 1) {
        var after := before + [ClassId(n - 1)];
        assert InsertionOrder(lines, n) == after;
        forall a, b | 0 <= a < b < |after| ensures after[a] < after[b] {
          if b < |before| {
            assert after[a] == before[a] && after[b] == before[b];
          } else {
            assert after[a] in before;
          }
        }
      } else {
        assert InsertionOrder(lines, n) == before;
      }
    }
  }

  /** Python iterates a dictionary in insertion order, so main visits the table
      of labels.txt in ascending ID order: the order of Ascending. */
  lemma InsertionOrderIsAscending(lines: seq<string>, keys: set<int>)
    requires forall id :: id in keys <==> 1 <= id && id + 1 < |lines| && Yields(lines, id + 1)
    ensures InsertionOrder(lines, |lines|) == Ascending(keys)
  {
    InsertionOrderFacts(lines, |lines|);
    AscendingUnique(keys, InsertionOrder(lines, |lines|));
  }

  /** A set holding the ID of every yielding line, stated by ID, holds
      ClassId(i) for every line i that yields a class. */
  lemma YieldingLinesCovered(lines: seq<string>, keys: set<int>)
    requires forall id :: 1 <= id && id + 1 < |lines| && Yields(lines, id + 1) ==> id in keys
    ensures forall i :: 0 <= i < |lines| && Yields(lines, i) ==> ClassId(i) in keys
  {
    forall i | 0 <= i < |lines| && Yields(lines, i) ensures ClassId(i) in keys {
      assert Yields(lines, ClassId(i) + 1);
    }
  }

  /** Builds mask_id_to_name_map from the lines of labels.txt. It fails exactly
      when no line yields a class; otherwise its keys are the IDs of the lines
      that yield one, each mapped to that line's stripped text, and the order in
      which it inserts them (InsertionOrder) is ascending. */
  method LoadMaskClasses(lines: seq<string>) returns (r: Result<map<int, string>>)
    ensures r.Err? <==> forall i :: 0 <= i < |lines| ==> !Yields(lines, i)
    ensures r.Ok? ==> forall id :: id in r.value ==>
      && 1 <= id && id + 1 < |lines|
      && Yields(lines, id + 1)
      && r.value[id] == Strip(lines[id + 1])
      && !IsReserved(r.value[id])
    ensures r.Ok? ==> forall id :: 1 <= id && id + 1 < |lines| && Yields(lines, id + 1) ==> id in r.value
    ensures r.Ok? ==> InsertionOrder(lines, |lines|) == Ascending(r.value.Keys)
  {
    var table: map<int, string> := map[];
    var i := 0;
    while i < |lines|
      invariant 0 <= i <= |lines|
      invariant forall id :: id in table ==>
        && 1 <= id && id + 1 < i
        && Yields(lines, id + 1)
        && table[id] == Strip(lines[id + 1])
      invariant forall id :: 1 <= id && id + 1 < i && Yields(lines, id + 1) ==> id in table
    {
      var classId := ClassId(i);
      var className := Strip(lines[i]);
      if !IsReserved(className) && classId >= 1 {
        assert Yields(lines, i);
        table := table[classId := className];
      } else {
        assert !Yields(lines, i);
      }
      i := i + 1;
    }
    if table == map[] {
      YieldingLinesCovered(lines, table.Keys);
      return Err(NoValidMaskClasses);
    }
    var id :| id in table;
    assert Yields(lines, id + 1);
    InsertionOrderIsAscending(lines, table.Keys);
    return Ok(table);
  }
}
