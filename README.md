# Star–detection correlation and mosaic helpers, in Dafny

This project models the selection and bookkeeping logic of two scripts from
a difference-imaging study of DECam data:

- `python/star_diffim_correlation.py` correlates bright UCAC4 reference stars
  with difference-image detections (DIA sources) on one visit and ccd. It
  flags stars whose nearest local source lies near a chip edge. It keeps the
  detections with |SNR| > 5 that are not dipoles, and checks that the kept
  positions and SNRs line up. For every star that survives, it builds a
  `SourceDetectionCorrelation` record whose `DetectionDist` children are the
  detections within one arcminute. Stars brighter than magnitude 9 are logged
  to a bright-star file. The record accessors `dist_array` and `SNR_array`
  are modelled too.
- `python/diasource_mosaic.py` holds the helpers of the mosaic plotter:
  - `group_items`, which pages detections into groups;
  - the inversion of the template catalog into a visit-to-template table;
  - `make_source_center`, which picks a cutout centre from the positive and
    negative dipole centroids;
  - `make_cutout`, a two-dimensional window slice with Python's slice
    semantics.

Floating-point values are modelled as reals. A NaN dipole centroid is
modelled as `None`; elsewhere NaN is not modelled. Values that
external libraries compute are inputs:
- the nearest-neighbour match index;
- the forced-photometry SNRs;
- the angular separation (a function `sep` giving arcseconds);
- the median shift.

Pure code (vectorised expressions, comprehensions, slicing) becomes functions
and lemmas. The per-star loop and the nested loop that fills the
visit-to-template dictionary become methods with loop invariants. Each method
is proved against a specification function, and lemmas prove what matters
about that function.

The entities of the scripts are datatypes and constants:
- `StarDiffimCorrelation.SourceDetectionCorrelation` and
  `StarDiffimCorrelation.DetectionDist` are the two tables
  (`python/star_diffim_correlation.py:18-47`). A record and its children form
  one value, since the script builds each record once and never changes it.
- `StarDiffimCorrelation.BufferSize`, `ChipWidth` and `ChipHeight` are the
  edge-test constants (`:105-109`). `SnrThreshold`, `SearchRadius` and
  `BrightMagLimit` are the thresholds at `:167`, `:207` and `:209`.
- `StarDiffimCorrelation.BrightStarLine` is one line of the bright-star file
  (`:210`).
- `DiasourceMosaic.TemplateCatalog` is `template_catalog`
  (`python/diasource_mosaic.py:38-42`), in the order its entries are written.
  `DiasourceMosaic.TemplateVisitCatalog` is `template_visit_catalog` (`:43-47`).
- `DiasourceMosaic.DipoleCentroids` holds the four NaiveDipoleCentroid
  readings (`:53-59`).

Files:
- `wrappers.dfy`: the `Option` type and the integer `Min` and `Max`.
- `star_diffim_correlation.dfy`: module `StarDiffimCorrelation`.
- `diasource_mosaic.dfy`: module `DiasourceMosaic`.

## Model

| member | source | states |
|---|---|---|
| StarDiffimCorrelation.Gather | python/star_diffim_correlation.py:168-170 | fancy indexing `xs[sel]`: one element per index, the k-th being `xs[sel[k]]` |
| StarDiffimCorrelation.Not | python/star_diffim_correlation.py:188 | `~flags`: the element-wise negation, of the same length |
| StarDiffimCorrelation.Where | python/star_diffim_correlation.py:167 | `np.where` on a mask: exactly the positions where the mask holds, each once, in ascending order |
| StarDiffimCorrelation.WhereCount | python/star_diffim_correlation.py:167 | `np.where` yields as many indices as the mask has true entries |
| StarDiffimCorrelation.SourceDetectionCorrelation.DistArray | python/star_diffim_correlation.py:27-30 | `dist_array` has one entry per child, entry k being child k's `dist` |
| StarDiffimCorrelation.SourceDetectionCorrelation.SNRArray | python/star_diffim_correlation.py:32-33 | `SNR_array` has one entry per child, entry k being child k's SNR |
| StarDiffimCorrelation.ZipDetectionDists | python/star_diffim_correlation.py:213 | the zipped children stop at the shorter array; child k pairs distance k with SNR k |
| StarDiffimCorrelation.ArraysRebuildChildren | python/star_diffim_correlation.py:27-33 | zipping a record's `dist_array` with its `SNR_array` gives back its children exactly |
| StarDiffimCorrelation.ChildrenGiveBackArrays | python/star_diffim_correlation.py:27-33 | a record built from equally long distance and SNR arrays returns those arrays from its accessors |
| StarDiffimCorrelation.NearEdge | python/star_diffim_correlation.py:106-109 | the four-edge test on one pixel position, with buffer 60/0.2632 |
| StarDiffimCorrelation.IsEdgeObject | python/star_diffim_correlation.py:101-110 | one flag per catalog star; star i is flagged iff its matched source has x < b, x > 2025 − b, y < b or y > 4070 − b |
| StarDiffimCorrelation.EdgeFlagDependsOnlyOnMatch | python/star_diffim_correlation.py:106-109 | flag i depends only on the pixel position of star i's matched source |
| StarDiffimCorrelation.EdgeRuleOnWholePixels | python/star_diffim_correlation.py:105-109 | on whole pixels a position is flagged exactly when x ≤ 227, x ≥ 1798, y ≤ 227 or y ≥ 3843 |
| StarDiffimCorrelation.ChipCentreNeverFlagged | python/star_diffim_correlation.py:105-109 | any one star matched to the chip centre (1012.5, 2035) is never flagged, whatever the other stars are matched to |
| StarDiffimCorrelation.OkStars | python/star_diffim_correlation.py:188 | `ok_ucac` holds exactly the stars not flagged, in catalog order |
| StarDiffimCorrelation.KeepDetection | python/star_diffim_correlation.py:167 | a detection is kept when abs(SNR) > 5 and its dipole flag is clear |
| StarDiffimCorrelation.SelectDetections | python/star_diffim_correlation.py:167 | the kept detections are exactly those with abs(SNR) > 5 and no dipole flag, in ascending order |
| StarDiffimCorrelation.FilterDetections | python/star_diffim_correlation.py:167-171 | kept positions and kept SNRs come from one index list: equal lengths, entry k of both is the same detection, every kept SNR has abs > 5 |
| StarDiffimCorrelation.CheckCatalogLengths | python/star_diffim_correlation.py:173 | the assertion fails exactly when the filtered catalog and the filtered SNRs differ in length |
| StarDiffimCorrelation.FilteredLengthsAgree | python/star_diffim_correlation.py:167-173 | for every well-formed input the assertion after the filter does not fire |
| StarDiffimCorrelation.Separations | python/star_diffim_correlation.py:206 | one separation per kept detection, k-th being the star's separation from detection k |
| StarDiffimCorrelation.InRadius | python/star_diffim_correlation.py:207 | the in-radius mask is true exactly at separations below one arcminute |
| StarDiffimCorrelation.StarRecord | python/star_diffim_correlation.py:213-215 | the record carries the run's visit, ccd number and the star's magnitude |
| StarDiffimCorrelation.StarRecordChildrenInOrder | python/star_diffim_correlation.py:206-215 | the children follow the in-radius detections in index order; child k holds that detection's separation and its SNR |
| StarDiffimCorrelation.StarRecordChildCount | python/star_diffim_correlation.py:206-213 | the number of children equals the number of detections closer than one arcminute |
| StarDiffimCorrelation.StarRecordChildrenAreNearDetections | python/star_diffim_correlation.py:206-213 | every child is within one arcminute, and every detection within one arcminute is a child carrying its own SNR |
| StarDiffimCorrelation.BrightMask | python/star_diffim_correlation.py:209 | a star is bright exactly when its magnitude is below 9 |
| StarDiffimCorrelation.BrightStarEntry | python/star_diffim_correlation.py:209-210 | what one star adds to the bright-star file: its line below magnitude 9, nothing otherwise |
| StarDiffimCorrelation.BrightStarLines | python/star_diffim_correlation.py:205-210 | the lines the loop writes, star by star |
| StarDiffimCorrelation.BrightStarLinesAreBrightStars | python/star_diffim_correlation.py:205-210 | the bright-star file receives one line per star below magnitude 9, in star order, with that star's ra, dec, magnitude, visit and ccd; none for other stars |
| StarDiffimCorrelation.SessionRecords | python/star_diffim_correlation.py:212-216 | the records a session receives: one per star, in star order, record s built from star s and its magnitude |
| StarDiffimCorrelation.SessionRecordsStep | python/star_diffim_correlation.py:205-216 | one more loop iteration appends exactly that star's record |
| StarDiffimCorrelation.CorrelateStars | python/star_diffim_correlation.py:205-216 | over the zipped stars and magnitudes: with a session, one record per star, in order, record s built from star s and magnitude s; without a session, none; the bright-star lines are written either way |
| StarDiffimCorrelation.ShiftAll | python/star_diffim_correlation.py:198-200 | each surviving position is moved by the same shift in ra and dec |
| StarDiffimCorrelation.OkRows | python/star_diffim_correlation.py:188 | `ok_ucac` for one run's inputs |
| StarDiffimCorrelation.SurvivingStars | python/star_diffim_correlation.py:198-200 | `shifted_ucac`: the unflagged stars, moved by the estimated shift |
| StarDiffimCorrelation.SurvivingMags | python/star_diffim_correlation.py:189 | `ok_ucac_mags`: the magnitudes of the unflagged stars |
| StarDiffimCorrelation.SurvivorsKeepTheirMagnitudes | python/star_diffim_correlation.py:188-200 | only stars whose match is clear of the edges survive, every such star does, and survivor k keeps its own (shifted) position and its own magnitude |
| StarDiffimCorrelation.StarDiffimCorrelation | python/star_diffim_correlation.py:165-216 | the length assertion never fires; with a session, one record per surviving star built from that star's shifted position, its magnitude and the filtered detections; without one, none; the bright-star lines are those of the survivors |
| DiasourceMosaic.GroupsFrom | python/diasource_mosaic.py:69-70 | the groups `group_items` yields from one offset of the range on |
| DiasourceMosaic.GroupItems | python/diasource_mosaic.py:68-70 | `group_items`: one slice of at most g items per offset of `xrange(0, len(items), g)` |
| DiasourceMosaic.GroupsFromConcat | python/diasource_mosaic.py:69-70 | the groups yielded from an offset on, joined, are the items from that offset on |
| DiasourceMosaic.GroupsFromShape | python/diasource_mosaic.py:69-70 | the groups from an offset on: all full but the last, the last non-empty, their count the rounded-up quotient |
| DiasourceMosaic.GroupItemsConcat | python/diasource_mosaic.py:68-70 | joining the yielded groups in order gives back the items unchanged |
| DiasourceMosaic.GroupItemsShape | python/diasource_mosaic.py:68-70 | there are ceil(len/g) groups (none for empty input); every group but the last has exactly g items; the last has between 1 and g |
| DiasourceMosaic.EntryMap | python/diasource_mosaic.py:46-47 | one entry's contribution: each of its visits maps to its template |
| DiasourceMosaic.Inverted | python/diasource_mosaic.py:44-47 | the table the inversion builds from the entries taken in order, later entries winning |
| DiasourceMosaic.InvertTemplateCatalog | python/diasource_mosaic.py:44-47 | the nested loop leaves the table that the entries, taken in order, define (later entries overwrite earlier ones) |
| DiasourceMosaic.InvertedKeys | python/diasource_mosaic.py:44-47 | a visit is a key of the inverted table exactly when some entry lists it |
| DiasourceMosaic.InvertedLookup | python/diasource_mosaic.py:44-47 | when no visit is listed twice, each listed visit maps to the template it is listed under |
| DiasourceMosaic.InvertedOrderIndependent | python/diasource_mosaic.py:45 | with disjoint lists, the table does not depend on the dictionary's iteration order |
| DiasourceMosaic.CatalogEntryFacts | python/diasource_mosaic.py:38-42 | each entry of the data set lists its own template, and its visits keep to a band of their own |
| DiasourceMosaic.TemplateCatalogDisjoint | python/diasource_mosaic.py:38-42 | no visit of the data set is listed under two templates |
| DiasourceMosaic.TemplateFor | python/diasource_mosaic.py:82 | the lookup finds a template iff some entry lists the visit, and under disjoint lists it is that entry's template |
| DiasourceMosaic.TemplatesMapToThemselves | python/diasource_mosaic.py:38-42 | every template of the data set maps to itself; an unlisted visit (197500) is not found |
| DiasourceMosaic.TemplateVisitCatalogFacts | python/diasource_mosaic.py:43-47 | `template_visit_catalog` itself sends every template of the data set to itself and has no key 197500 |
| DiasourceMosaic.MakeSourceCenter | python/diasource_mosaic.py:52-66 | the centre is a number in both coordinates iff at least one centroid is present; with both, the centre is the componentwise midpoint: equally far from each centroid in each coordinate, and so between them |
| DiasourceMosaic.SourceCenterSymmetric | python/diasource_mosaic.py:61-66 | once a centroid is present, exchanging the positive and negative lobes leaves the centre unchanged |
| DiasourceMosaic.SourceCenterSingleLobe | python/diasource_mosaic.py:63-66 | with one centroid present the centre is that centroid; with none, the (missing) positive readings are returned |
| DiasourceMosaic.SliceIndex | python/diasource_mosaic.py:50 | a slice bound counts from the end when negative and is clipped to the sequence |
| DiasourceMosaic.PySlice | python/diasource_mosaic.py:50 | a Python slice is never longer than the sequence or than `hi - lo`, and is the plain slice for in-range bounds |
| DiasourceMosaic.SliceColumns | python/diasource_mosaic.py:50 | the column slice keeps every row and slices each row alike |
| DiasourceMosaic.MakeCutout | python/diasource_mosaic.py:49-50 | a cutout has at most s rows |
| DiasourceMosaic.CutoutNeverLarger | python/diasource_mosaic.py:49-50 | wherever the centre lies, a cutout has at most s rows and each row at most s columns |
| DiasourceMosaic.CutoutInsideImage | python/diasource_mosaic.py:49-50 | a window inside the image is cut out exactly: s rows, row i being columns y − s/2 … y + s/2 of image row x − s/2 + i |
| DiasourceMosaic.WindowOfRows | python/diasource_mosaic.py:50 | a two-dimensional slice inside the image is the plain window, row by row |
| DiasourceMosaic.CutoutNearLowEdgeIsEmpty | python/diasource_mosaic.py:49-50 | a centre closer than s/2 to the first row of an image of at least s rows gives an empty cutout |
| DiasourceMosaic.CutoutNearLeftEdgeIsEmpty | python/diasource_mosaic.py:49-50 | likewise for columns: a centre closer than s/2 to the first column, with rows of at least s columns, gives s empty rows |
| DiasourceMosaic.ClippedSlice | python/diasource_mosaic.py:50 | the window intersected with the sequence: its length and its elements |
| DiasourceMosaic.MakeClippedCutout | python/diasource_mosaic.py:49-50 | the corrected cutout: the part of the window inside the image, with its exact size and pixels, at every edge |
| DiasourceMosaic.ClippedCutoutNearLowEdge | python/diasource_mosaic.py:49-50 | near the first row the corrected cutout keeps x + s/2 rows where the cutout as written has none |

## Left out

- I/O and persistence are not modelled:
  - the butler reads, and the skip on `RuntimeError`;
  - the Vizier catalog query and the SkyCoord construction;
  - the SQLAlchemy engine, session, commit and table mapping;
  - `run_debug`;
  - the `__main__` drivers and the progress prints.
  Adding a record to the session is modelled as appending to the returned `added` sequence. Appending to `bright_star_file` is modelled as appending to `brightLines`.
- The `__repr__` methods (string formatting) are not modelled. `DetectionDist.__repr__` has two format fields but passes one value, so calling it would raise.
- `compute_shift` (astropy sky matching and medians) is not modelled. Its result is the input pair `deltaRa`, `deltaDec`, applied as a plain sum with no right-ascension wrap-around at 360 degrees.
- The nearest-neighbour match inside `is_edge_object` is not modelled. The match index is an input.
- The forced-photometry SNR formula (a square root of flux errors) is not modelled. The SNRs are inputs.
- Angular separations are not modelled. They come from the parameter `sep`, in arcseconds, and the one-arcminute radius is 60 arcseconds.
- `zscale_image`, the WCS transforms and all plotting in `python/diasource_mosaic.py` are not modelled: they are float numerics and foreign calls.
- NaN outside the dipole centroids is not modelled. In the source a NaN match centroid fails all four comparisons at `python/star_diffim_correlation.py:106-109`, so that star is never flagged and survives. A NaN SNR is never kept at `:167`. The model's reals have no NaN, so it has neither case.
- `np.argwhere` at `python/star_diffim_correlation.py:188` returns an (N, 1) array, so `ok_ucac_mags` and the shifted positions at `:189` and `:198` are columns. Each loop value at `:205-214` is then a one-element array, not a number: the bright-star line prints bracketed values, and `source_mag` receives an array. The model takes each such value as the number it holds.
- `python/forcePhotDiaSources.py` is not part of this model. It is task-framework glue.
- `DiasourceMosaic.MakeCutout`: takes an integer centre and an even cutout size. The source divides `cutout_size/2` with true division and passes float slice bounds, which numpy either truncates toward zero or rejects, depending on its version. The model covers the case where every bound is a whole number.
- `DiasourceMosaic.GroupItems`: a group length of zero is excluded by its precondition, because `xrange` raises `ValueError` there. A negative group length yields no groups, as `xrange` does.
- `DiasourceMosaic.TemplateFor`: a visit no entry lists gives `None` where the dictionary lookup raises `KeyError`.
- `DiasourceMosaic.InvertTemplateCatalog`: visits the entries in the order they are written. Python 2 dictionary order is unspecified; `DiasourceMosaic.InvertedOrderIndependent` shows the result is the same for any order when the lists are disjoint, which `DiasourceMosaic.TemplateCatalogDisjoint` proves of the data set.

## Findings

| source | as written | input that shows it | evidently intended | confidence | as-written member | corrected member |
|---|---|---|---|---|---|---|
| python/diasource_mosaic.py:49-50 | when the centre lies within s/2 of the first row (or column), the slice start is negative and counts from the far end of the image, so it lands past the stop and the cutout is empty (for columns, `DiasourceMosaic.CutoutNearLeftEdgeIsEmpty`: every row comes out empty) | an image of 100 rows, x = 5, cutout size 30: rows `-10:20` select nothing | the window clipped at the image edge: rows 0 to 19 | not executed; medium | DiasourceMosaic.CutoutNearLowEdgeIsEmpty | DiasourceMosaic.MakeClippedCutout |
