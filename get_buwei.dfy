/** get_buwei.py: for every .png in a folder, a fresh greyscale image of the
    same size is filled pixel by pixel with 255 where the class-index image
    holds `getval` and 0 elsewhere, and saved under the same file name. */
module GetBuwei {
  import opened Raster
  import opened PyStr
  import opened GenerateMask

  /** The pixel buffer of an image as the rows numpy would give:
      a[y, x] is the pixel PIL addresses as (x, y). */
  function Rows(a: array2<int>): (g: Grid)
    reads a
    ensures IsRect(g, a.Length0, a.Length1)
    ensures forall y, x :: 0 <= y < a.Length0 && 0 <= x < a.Length1 ==> g[y][x] == a[y, x]
  {
    seq(a.Length0, y requires 0 <= y < a.Length0 reads a =>
      seq(a.Length1, x requires 0 <= x < a.Length1 reads a => a[y, x]))
  }

  /** The (x, y) pixels of row y up to column `upTo`, left to right. */
  function RowVisits(y: int, upTo: nat): (v: seq<(int, int)>)
    ensures |v| == upTo
  {
    if upTo == 0 then [] else RowVisits(y, upTo - 1) + [(upTo - 1, y)]
  }

  /** The inner loop visits the columns of its row left to right: step i is (i, y). */
  lemma {:induction false} RowVisitsInOrder(y: int, upTo: nat)
    ensures forall i :: 0 <= i < upTo ==> RowVisits(y, upTo)[i] == (i, y)
  {
    if upTo > 0 {
      RowVisitsInOrder(y, upTo - 1);
    }
  }

  /** The pixels of the first `rows` rows in the order of `for y: for x:`. */
  function RowMajor(rows: nat, width: nat): seq<(int, int)> {
    if rows == 0 then [] else RowMajor(rows - 1, width) + RowVisits(rows - 1, width)
  }

  /** How many times pixel p occurs in a visiting order. */
  function TimesVisited(visits: seq<(int, int)>, p: (int, int)): nat {
    if visits == [] then 0
    else TimesVisited(visits[..|visits| - 1], p) + (if visits[|visits| - 1] == p then 1 else 0)
  }

  lemma {:induction false} TimesVisitedAppend(a: seq<(int, int)>, b: seq<(int, int)>, p: (int, int))
    ensures TimesVisited(a + b, p) == TimesVisited(a, p) + TimesVisited(b, p)
    decreases |b|
  {
    if b != [] {
      assert (a + b)[..|a + b| - 1] == a + b[..|b| - 1];
      TimesVisitedAppend(a, b[..|b| - 1], p);
    } else {
      assert a + b == a;
    }
  }

  lemma {:induction false} RowVisitsOnce(y: int, upTo: nat, p: (int, int))
    ensures TimesVisited(RowVisits(y, upTo), p) == if p.1 == y && 0 <= p.0 < upTo then 1 else 0
  {
    if upTo > 0 {
      RowVisitsOnce(y, upTo - 1, p);
      TimesVisitedAppend(RowVisits(y, upTo - 1), [(upTo - 1, y)], p);
    }
  }

  /** The nested loops visit each pixel of a height x width image exactly once,
      and no position outside it. */
  lemma {:induction false} RowMajorVisitsEachOnce(height: nat, width: nat, p: (int, int))
    ensures TimesVisited(RowMajor(height, width), p) == if 0 <= p.0 < width && 0 <= p.1 < height then 1 else 0
  {
    if height > 0 {
      RowMajorVisitsEachOnce(height - 1, width, p);
      RowVisitsOnce(height - 1, width, p);
      LastRowSplit(height, width, p);
      var a, b := TimesVisited(RowMajor(height - 1, width), p), TimesVisited(RowVisits(height - 1, width), p);
      if 0 <= p.0 < width && 0 <= p.1 < height {
        if p.1 == height - 1 {
          assert a == 0 && b == 1;
        } else {
          assert a == 1 && b == 0;
        }
      } else {
        assert a == 0 && b == 0;
      }
    }
  }

  /** The visits of the first `height` rows are those of the rows before the
      last one plus those of the last row. */
  lemma LastRowSplit(height: nat, width: nat, p: (int, int))
    requires height > 0
    ensures TimesVisited(RowMajor(height, width), p)
      == TimesVisited(RowMajor(height - 1, width), p) + TimesVisited(RowVisits(height - 1, width), p)
  {
    TimesVisitedAppend(RowMajor(height - 1, width), RowVisits(height - 1, width), p);
  }

  /** The loops of get_buwei.py:25-34 for one image. `image` is the P-mode
      index buffer; `new_image` is allocated black with the same size and every
      pixel is written once, in the order the loops visit them (`visits`). */
  method ConvertImage(image: array2<int>, getval: int) returns (newImage: array2<int>, ghost visits: seq<(int, int)>)
    ensures fresh(newImage)
    ensures newImage.Length0 == image.Length0 && newImage.Length1 == image.Length1
    ensures forall y, x :: 0 <= y < image.Length0 && 0 <= x < image.Length1 ==>
      newImage[y, x] == NewPixel(image[y, x], getval)
    ensures Rows(newImage) == ExtractMaskByValue(Rows(image), getval)
    ensures visits == RowMajor(image.Length0, image.Length1)
  {
    var height, width := image.Length0, image.Length1;
    newImage := new int[height, width]((y, x) => 0);
    visits := [];
    var y := 0;
    while y < height
      invariant 0 <= y <= height
      invariant forall j, i :: 0 <= j < y && 0 <= i < width ==> newImage[j, i] == NewPixel(image[j, i], getval)
      invariant visits == RowMajor(y, width)
    {
      var x := 0;
      while x < width
        invariant 0 <= x <= width
        invariant forall j, i :: 0 <= j < y && 0 <= i < width ==> newImage[j, i] == NewPixel(image[j, i], getval)
        invariant forall i :: 0 <= i < x ==> newImage[y, i] == NewPixel(image[y, i], getval)
        invariant visits == RowMajor(y, width) + RowVisits(y, x)
      {
        var pixelValue := image[y, x];
        if pixelValue == getval {
          newImage[y, x] := Foreground;
        } else {
          newImage[y, x] := Background;
        }
        visits := visits + [(x, y)];
        x := x + 1;
      }
      y := y + 1;
    }
    var rows, mask := Rows(newImage), ExtractMaskByValue(Rows(image), getval);
    assert forall j :: 0 <= j < height ==> rows[j] == mask[j];
  }

  /** `filename.endswith('.png')`. */
  predicate IsPng(name: string) {
    EndsWith(name, ".png")
  }

  /** The outer loop of get_buwei.py:13-38. `entries` is os.listdir of the
      input folder and `images` the decoded index buffer of each .png file in
      it; `outputFolder` is what the output folder holds beforehand. Every .png
      entry is converted and saved in the output folder under its own file
      name; other entries are skipped and other files there are kept. */
  method ConvertFolder(entries: seq<string>, images: map<string, array2<int>>, outputFolder: map<string, Grid>, getval: int)
    returns (saved: map<string, Grid>)
    requires forall n :: n in entries && IsPng(n) ==> n in images
    ensures forall n :: n in saved <==> n in outputFolder || (n in entries && IsPng(n))
    ensures forall n :: n in entries && IsPng(n) ==> saved[n] == ExtractMaskByValue(Rows(images[n]), getval)
    ensures forall n :: n in outputFolder && !(n in entries && IsPng(n)) ==> saved[n] == outputFolder[n]
  {
    saved := outputFolder;
    var k := 0;
    while k < |entries|
      invariant 0 <= k <= |entries|
      invariant forall n :: n in saved <==> n in outputFolder || (n in entries[..k] && IsPng(n))
      invariant forall n :: n in entries[..k] && IsPng(n) ==> saved[n] == ExtractMaskByValue(Rows(images[n]), getval)
      invariant forall n :: n in outputFolder && !(n in entries[..k] && IsPng(n)) ==> saved[n] == outputFolder[n]
    {
      var filename := entries[k];
      if IsPng(filename) {
        var image := images[filename];
        var newImage, _ := ConvertImage(image, getval);
        saved := saved[filename := Rows(newImage)];
      }
      assert entries[..k + 1] == entries[..k] + [filename];
      k := k + 1;
    }
    assert entries[..k] == entries;
  }
}
