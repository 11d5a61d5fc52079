# Watershed segmentation core, modelled in Dafny

This project models the image-processing core of a small OpenCV segmentation
tool. The core is `include/functiondec.h`, and three pieces of it are modelled:

- `showBlueChannelOnly` (module `BlueChannel`, `blue_channel.dfy`) copies a BGR
  image, splits it into channel planes, replaces the green and red planes with
  zero planes and merges the planes back. It is modelled as pure functions on
  `Grid<Pixel>`, a matrix stored as a sequence of rows.
- Marker preparation in `runWatershed` (module `MarkerPrep`,
  `marker_prep.dfy`). It runs `markers += 1` on the connected-component ids, then
  `markers.setTo(0, unknown)`. Both steps are pure functions on `Grid<int32>`:
  - `+=` on a `CV_32S` matrix wraps modulo 2^32, so the largest id would
    become the smallest `int32`;
  - `setTo` on an empty matrix returns it unchanged, and an empty mask selects
    every cell;
  - `setTo` with a non-empty mask of another size is an OpenCV error, modelled
    as `None`.
- The output scan of `runWatershed` (module `LabelRender`, `label_render.dfy`).
  The source walks the marker matrix row by row and cell by cell, and mutates
  two things as it goes: a colour cache (`std::map<int, Vec3b>`) and an output
  image. So the scan is modelled imperatively, as methods over `array2`:
  - `RenderLabels` allocates the black image;
  - `ScanRows` is the row loop;
  - `ScanRow` is the column loop;
  - `ScanCell` is the loop body.

  Each method is proved against specification functions:
  - `Discovered` lists the region labels (values above 1) in the order a
    row-major scan first meets them;
  - `RegionColor` gives the label discovered i-th the i-th colour drawn;
  - `CellColor` is white for a boundary (-1), that colour for a region label,
    and black for everything else;
  - `ScanAfter` folds the cells of a prefix of the scan into the cache and
    the counter the loop holds after that prefix, and `ScanAfterIsCache` says
    what that cache and counter are in terms of `Discovered`.

Shared definitions are in module `Raster` (`raster.dfy`): 8-bit channels, 32-bit
labels, BGR pixels, and `Flatten`, which gives a matrix's cells in row-major
order.

`rand()` is modelled as an oracle `rand: nat -> nat`, the sequence of values
successive calls return. A newly met label gets colour number k, made of
draws 3k, 3k+1 and 3k+2, each modulo 256, as its blue, green and red.

Segmentation itself is `cv::watershed` (include/functiondec.h:104). The
markers it leaves are the input of `RenderLabels`.

Region ids are the `connectedComponents` ids shifted by one, so they need not be
dense. The scan fixes the order of the *colours*, not of the ids: the label met
k-th in row-major order gets the k-th colour drawn (`Discovered`,
`KthRegionKthColor`).

## Model

| member | source | states |
|---|---|---|
| BlueChannel.Plane | include/functiondec.h:15-16 | each plane from `split` has the image's shape and holds the given channel of every pixel |
| BlueChannel.Split | include/functiondec.h:15-16 | `split` yields three planes, each the shape of the image |
| BlueChannel.ZerosLike | include/functiondec.h:18-19 | `Mat::zeros` of a plane's size: same shape, every entry 0 |
| BlueChannel.Merge | include/functiondec.h:21 | `merge` of three same-size planes: channel ch of each pixel is plane ch's entry |
| BlueChannel.MergeSplit | include/functiondec.h:13-21 | merging the planes of a split gives back the image, so the clone-split-merge path only changes what the zeroed planes change |
| BlueChannel.ShowBlueChannelOnly | include/functiondec.h:11-23 | same size as the input; every pixel keeps its blue value and has green 0 and red 0 |
| BlueChannel.BlueOnlyIdempotent | include/functiondec.h:11-23 | applying the filter twice equals applying it once |
| BlueChannel.BlueOnlyFixedPoint | include/functiondec.h:11-23 | the filter leaves an image unchanged if and only if it has no green and no red anywhere |
| MarkerPrep.Shift | include/functiondec.h:93 | `+= 1` on one `CV_32S` cell is id + 1 modulo 2^32, and exactly id + 1 below the 32-bit maximum |
| MarkerPrep.ShiftAll | include/functiondec.h:93 | `markers += 1` keeps the shape; every cell is its id + 1 modulo 2^32, and exactly id + 1 below the 32-bit maximum |
| MarkerPrep.MaskOut | include/functiondec.h:94 | `setTo(0, unknown)`: an empty matrix comes back unchanged; an empty mask zeroes every cell; it fails exactly when both are non-empty and their shapes differ; with a same-shape mask each cell is 0 where the mask is non-zero and unchanged elsewhere |
| MarkerPrep.PrepareMarkers | include/functiondec.h:92-94 | the two steps in order: fails exactly when both are non-empty and the shapes differ; keeps the shape; an empty mask zeroes every cell; with a same-shape mask, masked cells are 0 and other ids below the maximum become id + 1 |
| MarkerPrep.MarkerClasses | include/functiondec.h:92-94 | on `connectedComponents` ids, the prepared markers are never negative: 0 exactly on unknown cells, 1 exactly on known background, at least 2 exactly on known object cells |
| MarkerPrep.PreparedRegionsSurvive | include/functiondec.h:92-94 | every label above 1 after preparation is the shifted id of an object with a cell outside the unknown mask |
| MarkerPrep.SurvivorsArePrepared | include/functiondec.h:92-94 | the shifted id of every object with a cell outside the unknown mask is a label above 1 after preparation |
| MarkerPrep.PreparedRegions | include/functiondec.h:92-94 | the labels above 1 after preparation are exactly the shifted ids of the objects with a cell outside the unknown mask |
| LabelRender.Discovered | include/functiondec.h:117-121 | the labels cached in scan order, at most one per scanned cell |
| LabelRender.DiscoveredDistinct | include/functiondec.h:118 | no label enters the cache twice |
| LabelRender.DiscoveredMembers | include/functiondec.h:117-121 | a label is discovered iff it occurs in the scan and is above 1 |
| LabelRender.DiscoveredInScanOrder | include/functiondec.h:111-121 | of two discovered labels, the one discovered earlier occurs first in row-major order |
| LabelRender.DiscoveredTake | include/functiondec.h:111-121 | scanning more cells only appends to the discovery order |
| LabelRender.ScanStep | include/functiondec.h:117-120 | one cell extends the discovery order iff it holds a label above 1 that has not been seen yet |
| LabelRender.CountIsDistinctLabels | include/functiondec.h:118-120 | the number of discovered labels equals the number of distinct values above 1 in the scan |
| LabelRender.CountBounds | include/functiondec.h:107-127 | a rows x cols matrix has at most rows * cols regions, and zero regions iff no cell holds a label above 1 |
| LabelRender.FirstIndex | include/functiondec.h:118 | the position of the first occurrence of a label: it holds the label and nothing before it does |
| LabelRender.DrawChannels | include/functiondec.h:119 | colour number k is made of draws 3k, 3k+1 and 3k+2 of `rand()`, each modulo 256, as blue, green and red |
| LabelRender.RegionColorAt | include/functiondec.h:118-122 | in a discovery order without repeats, the label at position k is painted with colour number k |
| LabelRender.KthRegionKthColor | include/functiondec.h:118-119 | the label discovered k-th is painted with the k-th colour drawn |
| LabelRender.CellColorCases | include/functiondec.h:114-123 | a cell with marker -1 is white; a cell whose marker is at most 1, or not a discovered label, is black; a cell whose marker is the label discovered k-th gets colour number k |
| LabelRender.CacheOfAt | include/functiondec.h:117-121 | the cache built from a discovery order holds exactly the labels of that order, each with its colour in the whole scan |
| LabelRender.CacheInsert | include/functiondec.h:118-120 | inserting the next discovered label with the next colour gives the cache of the longer discovery order |
| LabelRender.ScanAfterIsCache | include/functiondec.h:113-123 | after any prefix of the scan, the cache is exactly the discovered labels with their colours and the counter is their number |
| LabelRender.CachedColor | include/functiondec.h:117-121 | once a cell with a label above 1 is scanned, the cache holds that label with the colour `CellColor` gives it |
| LabelRender.Labels | include/functiondec.h:113 | the marker matrix read as rows: the same size and the same entry at every cell |
| LabelRender.ScanCell | include/functiondec.h:113-123 | the loop body: the cell gets `CellColor` of its marker, no other cell changes, and the cache and the count advance by the one-cell step of `ScanAfter` |
| LabelRender.ScanRow | include/functiondec.h:112-124 | the column loop: row r gets its final colours, other rows are unchanged, and the cache and the count become `ScanAfter` of the prefix that ends with row r |
| LabelRender.MarkersRow | include/functiondec.h:111-113 | row r is visited right after the cells of rows 0 .. r-1, its cells in column order |
| LabelRender.ScanRows | include/functiondec.h:111-125 | the row loop: the count equals the number of discovered labels and every cell holds `CellColor` of its marker |
| LabelRender.ScanOrderCovers | include/functiondec.h:117-122 | every label above 1 in the matrix is in the discovery order, so every such cell is painted from the cache |
| LabelRender.RenderLabels | include/functiondec.h:107-127 | returns a `WatershedOutput` (the struct of include/functiondec.h:59-62: image and count) whose image is fresh and the size of the markers; count is the number of labels in the discovery order, which equals the number of distinct labels above 1 and is at most rows * cols; -1 is white (255,255,255); a label above 1 gets the colour drawn when it was first met, so equal labels get equal colours; every other value stays black |
| Raster.FlattenSize | include/functiondec.h:111-112 | the row-major walk visits rows * cols cells |
| Raster.FlattenMember | include/functiondec.h:111-113 | a value is met by the walk iff some cell holds it |

## Left out

- Reading, displaying and converting images is outside this model: `toGrayscale`, `gaussianFilter`, `intensityThreshold`, the OpenGL helper and `main.cpp` are not part of it.
- The front of `runWatershed` is left out: morphological opening, dilation, `distanceTransform`, `minMaxLoc`, `threshold`, `subtract`, and the grey-to-BGR conversion. These are OpenCV library calls on floating-point and morphological data; the mask `unknown` they produce is a parameter of `MarkerPrep.PrepareMarkers`.
- `connectedComponents` and `watershed` are OpenCV calls whose code is not part of this model. The ids `connectedComponents` produces are the input of `MarkerPrep.PrepareMarkers`. The markers `watershed` leaves are the input of `LabelRender.RenderLabels`. The predicate `ComponentIds` states the range of ids that `MarkerClasses` assumes.
- `rand()` is a parameter: the sequence of values it returns. C++ leaves unspecified the order in which the three `rand() % 256` arguments of `Vec3b` are evaluated. The model assigns them in the order written, so another order is another oracle.
- The model does not claim that distinct labels get distinct colours. The random draws can coincide, and the source does nothing to prevent it.
- LabelRender.RenderLabels: `count` is an unbounded `nat`. The C++ `int` cannot overflow in practice, because the count is at most rows * cols (`CountBounds`).
- BlueChannel.ShowBlueChannelOnly: only three-channel 8-bit images are modelled. `split` on an image with a different channel count is not modelled.
- BlueChannel.ShowBlueChannelOnly: on an empty image `split` yields no planes, so the source's `channels[1]` is undefined behaviour. `main.cpp` rejects empty images before this point (src/main.cpp:42-46). The model returns the empty image.
- Matrices are modelled as value grids (`Grid`) in the pure parts. The marker matrix and the output image of the scan are modelled as `array2`; the marker matrix is only read, so the model does not capture aliasing between the two.
