# labelme_json-to-png: per-class mask extraction, in Dafny

This project models the two pieces of logic in the repository's mask stage.

- **The class-ID table** (`generate_mask.py`, `main`). Line `i` of LabelMe's `labels.txt` gets class ID `i - 1`, so `__ignore__` is -1 and `_background_` is 0. Each line is stripped of whitespace as Python's `str.strip()` does. A line is kept when its ID is at least 1 and its name is not a reserved marker. An empty table is a fatal error.
- **Binary mask extraction** from a class-index raster (the `SegmentationClassPNG` images). It comes in two forms:
  - the vectorised `(img_array == target_value) * 255` of `extract_mask_by_value`;
  - the nested `getpixel`/`putpixel` loop of `get_buwei.py`, which fills a fresh greyscale image for every `.png` in a folder.

The model is proved to have these properties:

- Both forms give 255 exactly where the raster holds the target and 0 elsewhere, and they produce the same raster.
- The mask has the input's shape.
- The mask has as many 255 pixels as the raster has target cells.
- The nested loops visit every pixel exactly once.
- Recombining the per-class masks gives back the raster on every class pixel.
- The table holds exactly the non-reserved lines with ID at least 1, each mapped to its stripped text.
- The table's IDs are inserted in ascending order, so the per-class loop takes each class once, in ascending ID order.

Files and modules:

- `raster.dfy` (`Raster`): rasters as `seq<seq<int>>` of rows, numpy shape (height, width). PIL's pixel `(x, y)` is `g[y][x]`. Also counting of cells.
- `pystr.dfy` (`PyStr`): `str.strip()`, `str.lstrip()`, `str.rstrip()` and `str.endswith()`. Whitespace is Python 3's `str.isspace()` set.
- `sorted_ids.dfy` (`SortedIds`): the IDs of a set in ascending order, and the proof that this order is unique.
- `generate_mask.dfy` (`GenerateMask`): `ExtractMaskByValue` is a function. `LoadMaskClasses` is the `for i, line in enumerate(f)` loop, written as a `while` loop that inserts into a `map`. It returns a `Result` whose error is the `sys.exit(1)` of an empty table. `MasksFor` is the per-class loop over the table.
- `get_buwei.dfy` (`GetBuwei`): `ConvertImage` is the nested `for y` / `for x` loop. It fills a freshly allocated `array2<int>` and logs a ghost trace of the pixels it visits. `ConvertFolder` is the outer loop over directory entries.

I/O becomes parameters:
- the lines of `labels.txt` are a `seq<string>`;
- a folder listing is a `seq<string>`;
- the decoded palette-index buffer of each `.png` is an `array2<int>`;
- a saved output folder is a `map` from file name to raster.

`getval` is a parameter. The source hard-codes it as 1 (`get_buwei.py:7`).

The reserved markers are LabelMe's `__ignore__` and `_background_`. The code is more permissive than LabelMe's convention in two places, and the model follows the code:
- The code does not check that the first two lines are the reserved markers. It drops any line whose ID is below 1 or whose name is `__ignore__` or `_background_`, wherever that line is.
- `extract_mask_by_value` accepts any target value; it does not itself refuse reserved IDs. Only IDs from the table, which are all at least 1, are passed to it.

## Model

| member | source | states |
|---|---|---|
| GenerateMask.ExtractMaskByValue | generate_mask.py:39 | each mask pixel is 255 iff the input pixel equals the target and 0 iff it does not; the mask has the input's row count and row lengths; every pixel is 0 or 255 and fits uint8 |
| GenerateMask.MaskShape | generate_mask.py:39-42 | a height x width input gives a height x width mask |
| GenerateMask.MaskCounts | generate_mask.py:39 | the number of 255 pixels equals the number of input cells equal to the target; every other pixel (cell count minus that number) is 0 |
| GenerateMask.ForegroundBound | generate_mask.py:39 | a height x width input has at most height * width foreground pixels in its mask |
| GenerateMask.MasksFor | generate_mask.py:147-159 | for a table, the per-class loop pairs an ID with a mask exactly when the ID is a key of the table; the IDs come in strictly ascending order, so each key occurs once; every ID is paired with `ExtractMaskByValue` of the sample's raster for it |
| GenerateMask.FiringClassOfMasks | generate_mask.py:147-159 | for the masks of any list of IDs, the first mask that is 255 at a pixel names that pixel's value when the value is in the list, and none fires otherwise |
| GenerateMask.MasksReconstructRaster | generate_mask.py:147-159 | from the masks of a table alone, the first firing mask gives the pixel's class when that class is a key of the table; a pixel of any other value reads as 0 |
| SortedIds.Ascending | generate_mask.py:147 | the IDs of a set listed in strictly ascending order: each ID of the set once and nothing else |
| SortedIds.AscendingUnique | generate_mask.py:147 | any strictly ascending sequence that holds exactly the IDs of a set is that set's ascending order |
| GenerateMask.InsertionOrderFacts | generate_mask.py:94-99 | the loop over labels.txt inserts IDs in strictly ascending order, and it inserts exactly the IDs >= 1 of lines that yield a class |
| GenerateMask.InsertionOrderIsAscending | generate_mask.py:94-99 | for a key set like the one `LoadMaskClasses` returns, the insertion order, which is the order `items()` iterates the dictionary at line 147, is the ascending order used by `MasksFor` |
| GenerateMask.LoadMaskClasses | generate_mask.py:91-103 | fails exactly when no line has ID (index - 1) >= 1 and a non-reserved stripped name; otherwise every key is >= 1 (so -1 and 0 never occur), the value of key k is the stripped text of line k + 1 and is neither `__ignore__` nor `_background_`, and every line with ID >= 1 and a non-reserved name is a key; the order in which the loop inserts the keys (`InsertionOrder`, the order `items()` iterates them at line 147) is their ascending order, the order `MasksFor` uses |
| Raster.CountIsMultiplicity | generate_mask.py:39 | the number of cells equal to v that the counting lemmas speak of is the multiplicity of v among the raster's cells in row-major (`flatten()`) order |
| PyStr.Strip | generate_mask.py:96 | the stripped name is never longer than the line; what it keeps and drops is stated by the lemmas below |
| PyStr.LStripIsSuffix | generate_mask.py:96 | lstrip keeps a suffix of the line and removes only whitespace |
| PyStr.RStripIsPrefix | generate_mask.py:96 | rstrip keeps a prefix of the line and removes only whitespace |
| PyStr.StripIsSlice | generate_mask.py:96 | strip keeps the contiguous slice after the leading whitespace, and all it drops on either side is whitespace |
| PyStr.StripTrimmed | generate_mask.py:96 | the stripped name neither starts nor ends with whitespace |
| PyStr.StripEmptyIffAllSpace | generate_mask.py:96 | a line strips to the empty name exactly when it is all whitespace |
| PyStr.StripIdempotent | generate_mask.py:96 | stripping a stripped name changes nothing |
| GetBuwei.ConvertImage | get_buwei.py:25-34 | the output is a fresh image of the input's size; pixel (x, y) is 255 if the input pixel is getval and 0 otherwise; its rows equal `ExtractMaskByValue(rows of the input, getval)`; the pixels are written in row-major order; the input is not modified (the method has no modifies clause) |
| GetBuwei.RowVisitsInOrder | get_buwei.py:29 | the inner loop's i-th step visits column i of its row, so columns are visited left to right |
| GetBuwei.RowVisitsOnce | get_buwei.py:29 | the inner loop visits each column of its row exactly once, and nothing else |
| GetBuwei.RowMajorVisitsEachOnce | get_buwei.py:28-29 | the two loops visit every (x, y) with 0 <= x < width and 0 <= y < height exactly once, and no other position |
| PyStr.EndsWithIffStem | get_buwei.py:14 | a name passes `endswith('.png')` exactly when it is some stem followed by `.png` |
| GetBuwei.ConvertFolder | get_buwei.py:13-38 | exactly the entries ending in `.png` are converted; each is saved under its own file name with the mask of its image for getval; the output folder's other files are kept unchanged |

## Left out

- Image decoding and encoding are left out: PIL `Image.open`, `convert('P')` and `convert('L')`, palette and mode semantics, `Image.fromarray` and `save`. An image is modelled as the grid of palette indices the code reads. The mode check of `extract_mask_by_value` is left out with it, because it is about the file format.
- Reading `labels.txt` is left out: opening the file, decoding it as UTF-8 and splitting it into lines. The model starts from the sequence of lines.
- Directory handling is left out: walking, `glob`, `os.listdir`, `os.makedirs`, path joining, the hard-coded Windows paths, and the choice of only the first PNG of each sample folder. This is file-system orchestration.
- The outer per-sample loop of `generate_mask.py`'s `main` is left out as orchestration: finding each sample's PNG, the skips and the messages (lines 114-146 and 160-164). The per-class loop inside it (lines 147-159) is `MasksFor`.
- Printed messages, the `try/except` skips and `sys.exit` are left out. The one fatal error that belongs to the core, an empty class table, is the `Err` result of `LoadMaskClasses`.
- A Dafny `map` is unordered, so the dictionary's insertion order is not part of the value `LoadMaskClasses` returns. It is the function `InsertionOrder` of the lines, and the method's last postcondition states that it equals the ascending order of the returned keys.
- Polygon rasterisation, which produces `SegmentationClassPNG`, is left out. It is done by the external labelme library, and `json转掩码图像预处理1.py` is not part of this model.
- Pixel values are unbounded integers. 8-bit storage is stated only for the output, by `FitsUint8`.
- ConvertFolder: its precondition supplies a decoded image for every `.png` entry. The source has no `try` around `Image.open` (`get_buwei.py:17`), so an unreadable `.png` ends the script with the masks of earlier entries already saved. The model does not represent that crash.
- MasksReconstructRaster: this lemma is about the list of masks `main` computes, not about the folders it writes them to. Each mask goes to a folder named `Mask_{class_name}` (`generate_mask.py:150-156`), so two IDs with the same name share a folder and the later mask overwrites the earlier one. Recovering the raster from the saved folders also needs the class names to be distinct, and the model does not state that.
