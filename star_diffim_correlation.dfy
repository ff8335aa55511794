/**
 * The selection and bookkeeping of python/star_diffim_correlation.py:
 * which reference-catalog (UCAC4) stars sit near a chip edge, which
 * difference-image detections are kept, and the correlation records and
 * bright-star log lines produced for every star that survives.
 *
 * Floating-point values are reals. The catalog query, the butler reads, the
 * nearest-neighbour sky match, the forced-photometry SNR formula, the sky
 * separation and the median shift are computed by external libraries; here
 * they are inputs (the separation as a function `sep` giving arcseconds).
 */
module StarDiffimCorrelation {
  import opened Wrappers

  // -------------------------------------------------------------------------
  // numpy idioms on one-dimensional arrays

  ghost predicate StrictlyIncreasing(s: seq<nat>) {
    forall a, b :: 0 <= a < b < |s| ==> s[a] < s[b]
  }

  /** The positions at which a mask holds. */
  ghost function TrueSet(mask: seq<bool>): set<nat> {
    set i: nat | i < |mask| && mask[i]
  }

  /** `np.where(mask)` on a one-dimensional mask: the positions at which
      `mask` holds, in ascending order. (`np.argwhere` yields the same
      positions, each wrapped in a one-element row.) */
  function Where(mask: seq<bool>): (r: seq<nat>)
    ensures forall k :: 0 <= k < |r| ==> r[k] < |mask| && mask[r[k]]
    ensures forall i :: 0 <= i < |mask| && mask[i] ==> i in r
    ensures StrictlyIncreasing(r)
  {
    if mask == [] then []
    else
      var n := |mask| - 1;
      Where(mask[..n]) + (if mask[n] then [n] else [])
  }

  /** `np.where` yields as many indices as the mask has true entries. */
  lemma {:induction false} WhereCount(mask: seq<bool>)
    ensures |Where(mask)| == |TrueSet(mask)|
  {
    if mask != [] {
      var n := |mask| - 1;
      var front := mask[..n];
      WhereCount(front);
      var last: set<nat> := if mask[n] then {n} else {};
      assert |Where(mask)| == |Where(front)| + |last|;
      TrueSetSnoc(mask);
    }
  }

  lemma TrueSetSnoc(mask: seq<bool>)
    requires mask != []
    ensures var n := |mask| - 1;
      TrueSet(mask) == TrueSet(mask[..n]) + (if mask[n] then {n} else {}) &&
      n !in TrueSet(mask[..n])
  {
  }

  /** Fancy indexing `xs[sel]`. */
  function Gather<T>(xs: seq<T>, sel: seq<nat>): (r: seq<T>)
    requires forall k :: 0 <= k < |sel| ==> sel[k] < |xs|
    ensures |r| == |sel|
    ensures forall k :: 0 <= k < |r| ==> r[k] == xs[sel[k]]
  {
    seq(|sel|, k requires 0 <= k < |sel| => xs[sel[k]])
  }

  /** Element-wise negation `~flags`. */
  function Not(flags: seq<bool>): (r: seq<bool>)
    ensures |r| == |flags|
    ensures forall i :: 0 <= i < |r| ==> r[i] == !flags[i]
  {
    seq(|flags|, i requires 0 <= i < |flags| => !flags[i])
  }

  function Abs(x: real): real {
    if x < 0.0 then -x else x
  }

  // -------------------------------------------------------------------------
  // Persisted records

  /** A sky position: right ascension and declination, in degrees. */
  datatype SkyPos = SkyPos(ra: real, dec: real)

  /** A row of the DetectionDists table: the separation between the star and
      one detection, in arcseconds, and that detection's SNR. */
  datatype DetectionDist = DetectionDist(dist: real, snr: real)

  /** A row of the SourceDetectionCorrelations table together with the
      DetectionDists rows it owns. Records are built once and never changed. */
  datatype SourceDetectionCorrelation =
    SourceDetectionCorrelation(visit: int, ccdnum: int, sourceMag: real, detectionDists: seq<DetectionDist>)
  {
    /** `dist_array`: the children's separations, in stored order. */
    function DistArray(): (r: seq<real>)
      ensures |r| == |detectionDists|
      ensures forall k :: 0 <= k < |r| ==> r[k] == detectionDists[k].dist
    {
      seq(|detectionDists|, k requires 0 <= k < |detectionDists| => detectionDists[k].dist)
    }

    /** `SNR_array`: the children's SNRs, in stored order. */
    function SNRArray(): (r: seq<real>)
      ensures |r| == |detectionDists|
      ensures forall k :: 0 <= k < |r| ==> r[k] == detectionDists[k].snr
    {
      seq(|detectionDists|, k requires 0 <= k < |detectionDists| => detectionDists[k].snr)
    }
  }

  /** `[DetectionDist(dist=d, SNR=SNR) for d, SNR in zip(dists, snrs)]`;
      `zip` stops at the shorter argument. */
  function ZipDetectionDists(dists: seq<real>, snrs: seq<real>): (r: seq<DetectionDist>)
    ensures |r| == Min(|dists|, |snrs|)
    ensures forall k :: 0 <= k < |r| ==> r[k].dist == dists[k] && r[k].snr == snrs[k]
  {
    var n := Min(|dists|, |snrs|);
    seq(n, k requires 0 <= k < n => DetectionDist(dists[k], snrs[k]))
  }

  /** Reading a record's two arrays back and zipping them rebuilds its children. */
  lemma ArraysRebuildChildren(c: SourceDetectionCorrelation)
    ensures ZipDetectionDists(c.DistArray(), c.SNRArray()) == c.detectionDists
  {
  }

  /** A record built from equally long distance and SNR arrays gives exactly
      those arrays back. */
  lemma ChildrenGiveBackArrays(visit: int, ccdnum: int, mag: real, dists: seq<real>, snrs: seq<real>)
    requires |dists| == |snrs|
    ensures SourceDetectionCorrelation(visit, ccdnum, mag, ZipDetectionDists(dists, snrs)).DistArray() == dists
    ensures SourceDetectionCorrelation(visit, ccdnum, mag, ZipDetectionDists(dists, snrs)).SNRArray() == snrs
  {
  }

  // -------------------------------------------------------------------------
  // Edge-of-chip test

  /** The edge buffer: 60 arcseconds at the plate scale of 0.2632 arcseconds
      per pixel. */
  const BufferSize: real := 60.0 / 0.2632
  /** Chip dimensions used by the edge test, in pixels. */
  const ChipWidth: real := 2025.0
  const ChipHeight: real := 4070.0

  /** A pixel position closer than the buffer to one of the four chip edges. */
  predicate NearEdge(x: real, y: real) {
    x < BufferSize || x > ChipWidth - BufferSize || y < BufferSize || y > ChipHeight - BufferSize
  }

  /** `is_edge_object`, given `idx`, the index of each catalog star's nearest
      local source, and the pixel centroids `xs`, `ys` of the local sources. */
  function IsEdgeObject(idx: seq<nat>, xs: seq<real>, ys: seq<real>): (flags: seq<bool>)
    requires forall i :: 0 <= i < |idx| ==> idx[i] < |xs| && idx[i] < |ys|
    ensures |flags| == |idx|
    ensures forall i :: 0 <= i < |idx| ==> flags[i] == NearEdge(xs[idx[i]], ys[idx[i]])
  {
    if idx == [] then []
    else [NearEdge(xs[idx[0]], ys[idx[0]])] + IsEdgeObject(idx[1..], xs, ys)
  }

  /** The flag of star i depends on nothing but the pixel position of its match. */
  lemma EdgeFlagDependsOnlyOnMatch(idx: seq<nat>, xs: seq<real>, ys: seq<real>,
                                   idx': seq<nat>, xs': seq<real>, ys': seq<real>, i: nat)
    requires forall k :: 0 <= k < |idx| ==> idx[k] < |xs| && idx[k] < |ys|
    requires forall k :: 0 <= k < |idx'| ==> idx'[k] < |xs'| && idx'[k] < |ys'|
    requires i < |idx| && i < |idx'|
    requires xs[idx[i]] == xs'[idx'[i]] && ys[idx[i]] == ys'[idx'[i]]
    ensures IsEdgeObject(idx, xs, ys)[i] == IsEdgeObject(idx', xs', ys')[i]
  {
  }

  /** On whole pixels the edge test reads: flagged exactly when x <= 227,
      x >= 1798, y <= 227 or y >= 3843 (the buffer is a little under 228). */
  lemma EdgeRuleOnWholePixels(x: int, y: int)
    ensures NearEdge(x as real, y as real) <==> x <= 227 || x >= 1798 || y <= 227 || y >= 3843
  {
  }

  /** A star matched to the chip centre (1012.5, 2035) is never flagged,
      whatever the other stars of the catalog are matched to. */
  lemma ChipCentreNeverFlagged(idx: seq<nat>, xs: seq<real>, ys: seq<real>, i: nat)
    requires forall k :: 0 <= k < |idx| ==> idx[k] < |xs| && idx[k] < |ys|
    requires i < |idx| && xs[idx[i]] == 1012.5 && ys[idx[i]] == 2035.0
    ensures !IsEdgeObject(idx, xs, ys)[i]
  {
  }

  /** `ok_ucac = np.argwhere(~ucac_edge_object)`: the catalog stars that pass
      the edge test, in catalog order. */
  function OkStars(idx: seq<nat>, xs: seq<real>, ys: seq<real>): (ok: seq<nat>)
    requires forall i :: 0 <= i < |idx| ==> idx[i] < |xs| && idx[i] < |ys|
    ensures StrictlyIncreasing(ok)
    ensures forall k :: 0 <= k < |ok| ==> ok[k] < |idx| && !NearEdge(xs[idx[ok[k]]], ys[idx[ok[k]]])
    ensures forall i :: 0 <= i < |idx| && !NearEdge(xs[idx[i]], ys[idx[i]]) ==> i in ok
  {
    Where(Not(IsEdgeObject(idx, xs, ys)))
  }

  // -------------------------------------------------------------------------
  // Detection filter

  /** Minimum |SNR| of a kept detection. */
  const SnrThreshold: real := 5.0

  predicate KeepDetection(snr: real, isDipole: bool) {
    Abs(snr) > SnrThreshold && !isDipole
  }

  /** `sel_filtered_diasources`: the detections with |SNR| > 5 whose
      `classification_dipole` flag is clear, in ascending order. */
  function SelectDetections(snrs: seq<real>, dipole: seq<bool>): (sel: seq<nat>)
    requires |snrs| == |dipole|
    ensures StrictlyIncreasing(sel)
    ensures forall k :: 0 <= k < |sel| ==> sel[k] < |snrs| && KeepDetection(snrs[sel[k]], dipole[sel[k]])
    ensures forall i :: 0 <= i < |snrs| && KeepDetection(snrs[i], dipole[i]) ==> i in sel
  {
    Where(seq(|snrs|, i requires 0 <= i < |snrs| => KeepDetection(snrs[i], dipole[i])))
  }

  /** The kept detections: `diasource_catalog` and `filtered_SNRs`. */
  datatype FilteredDetections = FilteredDetections(positions: seq<SkyPos>, snrs: seq<real>)

  /** Positions and SNRs are both taken at the same selected indices, so the
      two arrays have equal length and their k-th entries describe one detection. */
  function FilterDetections(positions: seq<SkyPos>, snrs: seq<real>, dipole: seq<bool>): (f: FilteredDetections)
    requires |positions| == |snrs| == |dipole|
    ensures |f.positions| == |f.snrs|
    ensures forall k :: 0 <= k < |f.snrs| ==> Abs(f.snrs[k]) > SnrThreshold
    ensures var sel := SelectDetections(snrs, dipole);
      |f.positions| == |sel| &&
      forall k :: 0 <= k < |sel| ==> f.positions[k] == positions[sel[k]] && f.snrs[k] == snrs[sel[k]]
  {
    var sel := SelectDetections(snrs, dipole);
    FilteredDetections(Gather(positions, sel), Gather(snrs, sel))
  }

  /** Raised when the filtered catalog and the filtered SNRs differ in length. */
  datatype Error = LengthMismatch

  /** The assertion that guards the correlation loop: it fails exactly when
      the two filtered arrays differ in length. */
  function CheckCatalogLengths(f: FilteredDetections): (r: Option<Error>)
    ensures r.Some? <==> |f.positions| != |f.snrs|
  {
    if |f.positions| == |f.snrs| then None else Some(LengthMismatch)
  }

  /** The assertion after the filter never fires: both arrays are taken at
      the same selected indices. */
  lemma FilteredLengthsAgree(positions: seq<SkyPos>, snrs: seq<real>, dipole: seq<bool>)
    requires |positions| == |snrs| == |dipole|
    ensures CheckCatalogLengths(FilterDetections(positions, snrs, dipole)) == None
  {
  }

  // -------------------------------------------------------------------------
  // Per-star correlation

  /** Search radius around each star: one arcminute, in arcseconds. */
  const SearchRadius: real := 60.0
  /** Stars brighter than this magnitude are logged to the bright-star file. */
  const BrightMagLimit: real := 9.0

  /** `dists`: the separation of a star from every kept detection. */
  function Separations(star: SkyPos, dets: seq<SkyPos>, sep: (SkyPos, SkyPos) -> real): (d: seq<real>)
    ensures |d| == |dets|
    ensures forall k :: 0 <= k < |d| ==> d[k] == sep(star, dets[k])
  {
    seq(|dets|, k requires 0 <= k < |dets| => sep(star, dets[k]))
  }

  /** `dists < 1*u.arcmin`. */
  function InRadius(dists: seq<real>): (m: seq<bool>)
    ensures |m| == |dists|
    ensures forall k :: 0 <= k < |m| ==> m[k] == (dists[k] < SearchRadius)
  {
    seq(|dists|, k requires 0 <= k < |dists| => dists[k] < SearchRadius)
  }

  /** The record added to the session for one star (`sql_entry`). */
  function StarRecord(visit: int, ccdnum: int, star: SkyPos, mag: real,
                      dets: seq<SkyPos>, snrs: seq<real>, sep: (SkyPos, SkyPos) -> real): (rec: SourceDetectionCorrelation)
    requires |snrs| == |dets|
    ensures rec.visit == visit && rec.ccdnum == ccdnum && rec.sourceMag == mag
  {
    var dists := Separations(star, dets, sep);
    var sel := Where(InRadius(dists));
    SourceDetectionCorrelation(visit, ccdnum, mag, ZipDetectionDists(Gather(dists, sel), Gather(snrs, sel)))
  }

  /** The children of a star's record follow the in-radius detections in
      index order, child k carrying the separation and the SNR of the same
      detection. */
  lemma StarRecordChildrenInOrder(visit: int, ccdnum: int, star: SkyPos, mag: real,
                                  dets: seq<SkyPos>, snrs: seq<real>, sep: (SkyPos, SkyPos) -> real)
    requires |snrs| == |dets|
    ensures var children := StarRecord(visit, ccdnum, star, mag, dets, snrs, sep).detectionDists;
      var sel := Where(InRadius(Separations(star, dets, sep)));
      |children| == |sel| &&
      forall k :: 0 <= k < |sel| ==> children[k] == DetectionDist(sep(star, dets[sel[k]]), snrs[sel[k]])
  {
  }

  /** The detections closer to a star than one arcminute. */
  ghost function NearDetections(star: SkyPos, dets: seq<SkyPos>, sep: (SkyPos, SkyPos) -> real): set<nat> {
    set j: nat | j < |dets| && sep(star, dets[j]) < SearchRadius
  }

  /** A star's record has as many children as there are detections closer
      than one arcminute. */
  lemma StarRecordChildCount(visit: int, ccdnum: int, star: SkyPos, mag: real,
                             dets: seq<SkyPos>, snrs: seq<real>, sep: (SkyPos, SkyPos) -> real)
    requires |snrs| == |dets|
    ensures |StarRecord(visit, ccdnum, star, mag, dets, snrs, sep).detectionDists| == |NearDetections(star, dets, sep)|
  {
    var mask := InRadius(Separations(star, dets, sep));
    StarRecordChildrenInOrder(visit, ccdnum, star, mag, dets, snrs, sep);
    WhereCount(mask);
    assert TrueSet(mask) == NearDetections(star, dets, sep);
  }

  /** Every child of a star's record lies within one arcminute of the star,
      and every detection within one arcminute is a child, carrying its own SNR. */
  lemma StarRecordChildrenAreNearDetections(visit: int, ccdnum: int, star: SkyPos, mag: real,
                                            dets: seq<SkyPos>, snrs: seq<real>, sep: (SkyPos, SkyPos) -> real)
    requires |snrs| == |dets|
    ensures forall c :: c in StarRecord(visit, ccdnum, star, mag, dets, snrs, sep).detectionDists ==>
      c.dist < SearchRadius
    ensures forall j :: 0 <= j < |dets| && sep(star, dets[j]) < SearchRadius ==>
      DetectionDist(sep(star, dets[j]), snrs[j]) in StarRecord(visit, ccdnum, star, mag, dets, snrs, sep).detectionDists
  {
    var children := StarRecord(visit, ccdnum, star, mag, dets, snrs, sep).detectionDists;
    var sel := Where(InRadius(Separations(star, dets, sep)));
    StarRecordChildrenInOrder(visit, ccdnum, star, mag, dets, snrs, sep);
    forall j | 0 <= j < |dets| && sep(star, dets[j]) < SearchRadius
      ensures DetectionDist(sep(star, dets[j]), snrs[j]) in children
    {
      var k :| 0 <= k < |sel| && sel[k] == j;
      assert children[k] == DetectionDist(sep(star, dets[j]), snrs[j]);
    }
  }

  /** One line of `bright_star_file`: ra, dec, magnitude, visit, ccdnum. */
  datatype BrightStarLine = BrightStarLine(ra: real, dec: real, mag: real, visit: int, ccdnum: int)

  function BrightMask(mags: seq<real>): (m: seq<bool>)
    ensures |m| == |mags|
    ensures forall s :: 0 <= s < |m| ==> m[s] == (mags[s] < BrightMagLimit)
  {
    seq(|mags|, s requires 0 <= s < |mags| => mags[s] < BrightMagLimit)
  }

  /** What one star adds to the bright-star file: its line when brighter than
      magnitude 9, nothing otherwise. */
  function BrightStarEntry(visit: int, ccdnum: int, star: SkyPos, mag: real): seq<BrightStarLine> {
    if mag < BrightMagLimit then [BrightStarLine(star.ra, star.dec, mag, visit, ccdnum)] else []
  }

  /** The lines the correlation loop appends to the bright-star file, star by star. */
  function BrightStarLines(visit: int, ccdnum: int, stars: seq<SkyPos>, mags: seq<real>): seq<BrightStarLine>
    requires |stars| == |mags|
  {
    if stars == [] then []
    else
      var n := |stars| - 1;
      BrightStarLines(visit, ccdnum, stars[..n], mags[..n]) + BrightStarEntry(visit, ccdnum, stars[n], mags[n])
  }

  /** The bright-star file receives one line per star of magnitude below 9,
      in star order, and none for the others. */
  lemma {:induction false} BrightStarLinesAreBrightStars(visit: int, ccdnum: int, stars: seq<SkyPos>, mags: seq<real>)
    requires |stars| == |mags|
    ensures var w := Where(BrightMask(mags));
      var lines := BrightStarLines(visit, ccdnum, stars, mags);
      |lines| == |w| &&
      forall k :: 0 <= k < |w| ==> lines[k] == BrightStarLine(stars[w[k]].ra, stars[w[k]].dec, mags[w[k]], visit, ccdnum)
  {
    if stars != [] {
      var n := |stars| - 1;
      var starsFront, magsFront := stars[..n], mags[..n];
      BrightStarLinesAreBrightStars(visit, ccdnum, starsFront, magsFront);
      assert BrightMask(mags)[..n] == BrightMask(magsFront);
      var w := Where(BrightMask(mags));
      var wFront := Where(BrightMask(magsFront));
      assert w == wFront + (if mags[n] < BrightMagLimit then [n] else []);
      var lines := BrightStarLines(visit, ccdnum, stars, mags);
      var linesFront := BrightStarLines(visit, ccdnum, starsFront, magsFront);
      assert lines == linesFront + BrightStarEntry(visit, ccdnum, stars[n], mags[n]);
      forall k | 0 <= k < |w|
        ensures lines[k] == BrightStarLine(stars[w[k]].ra, stars[w[k]].dec, mags[w[k]], visit, ccdnum)
      {
        if k < |wFront| {
          assert lines[k] == linesFront[k] && w[k] == wFront[k];
          assert stars[w[k]] == starsFront[wFront[k]] && mags[w[k]] == magsFront[wFront[k]];
        }
      }
    }
  }

  /** Extending the stars by one appends at most that star's line. */
  lemma BrightStarLinesStep(visit: int, ccdnum: int, stars: seq<SkyPos>, mags: seq<real>, i: nat)
    requires i < |stars| && i < |mags|
    ensures BrightStarLines(visit, ccdnum, stars[..i + 1], mags[..i + 1])
         == BrightStarLines(visit, ccdnum, stars[..i], mags[..i]) + BrightStarEntry(visit, ccdnum, stars[i], mags[i])
  {
    assert stars[..i + 1][..i] == stars[..i] && mags[..i + 1][..i] == mags[..i];
  }

  /** The records the correlation loop adds to a session: one per star, in
      star order, record s built from star s and its magnitude. */
  function SessionRecords(visit: int, ccdnum: int, stars: seq<SkyPos>, mags: seq<real>,
                          dets: seq<SkyPos>, snrs: seq<real>, sep: (SkyPos, SkyPos) -> real): (recs: seq<SourceDetectionCorrelation>)
    requires |stars| == |mags| && |snrs| == |dets|
    ensures |recs| == |stars|
    ensures forall s :: 0 <= s < |recs| ==> recs[s] == StarRecord(visit, ccdnum, stars[s], mags[s], dets, snrs, sep)
  {
    seq(|stars|, s requires 0 <= s < |stars| => StarRecord(visit, ccdnum, stars[s], mags[s], dets, snrs, sep))
  }

  /** Extending the stars by one appends that star's record. */
  lemma SessionRecordsStep(visit: int, ccdnum: int, stars: seq<SkyPos>, mags: seq<real>,
                           dets: seq<SkyPos>, snrs: seq<real>, sep: (SkyPos, SkyPos) -> real, i: nat)
    requires i < |stars| && i < |mags| && |snrs| == |dets|
    ensures SessionRecords(visit, ccdnum, stars[..i + 1], mags[..i + 1], dets, snrs, sep)
         == SessionRecords(visit, ccdnum, stars[..i], mags[..i], dets, snrs, sep)
            + [StarRecord(visit, ccdnum, stars[i], mags[i], dets, snrs, sep)]
  {
    var longer := SessionRecords(visit, ccdnum, stars[..i + 1], mags[..i + 1], dets, snrs, sep);
    var shorter := SessionRecords(visit, ccdnum, stars[..i], mags[..i], dets, snrs, sep);
    forall s | 0 <= s < i ensures longer[s] == shorter[s] {
      assert stars[..i + 1][s] == stars[..i][s] && mags[..i + 1][s] == mags[..i][s];
    }
  }

  /** The correlation loop over the surviving stars, zipped with their
      magnitudes. Records go to the session only when one is supplied; the
      bright-star file is written either way. */
  method CorrelateStars(visit: int, ccdnum: int, stars: seq<SkyPos>, mags: seq<real>,
                        dets: seq<SkyPos>, snrs: seq<real>, sep: (SkyPos, SkyPos) -> real,
                        hasSession: bool)
    returns (added: seq<SourceDetectionCorrelation>, brightLines: seq<BrightStarLine>)
    requires |snrs| == |dets|
    ensures |added| == if hasSession then Min(|stars|, |mags|) else 0
    ensures forall s :: 0 <= s < |added| ==>
      added[s] == StarRecord(visit, ccdnum, stars[s], mags[s], dets, snrs, sep)
    ensures var n := Min(|stars|, |mags|);
      brightLines == BrightStarLines(visit, ccdnum, stars[..n], mags[..n])
  {
    var n := Min(|stars|, |mags|);
    added, brightLines := [], [];
    var i := 0;
    while i < n
      invariant 0 <= i <= n
      invariant added == if hasSession then SessionRecords(visit, ccdnum, stars[..i], mags[..i], dets, snrs, sep) else []
      invariant brightLines == BrightStarLines(visit, ccdnum, stars[..i], mags[..i])
    {
      brightLines := brightLines + BrightStarEntry(visit, ccdnum, stars[i], mags[i]);
      if hasSession {
        added := added + [StarRecord(visit, ccdnum, stars[i], mags[i], dets, snrs, sep)];
      }
      BrightStarLinesStep(visit, ccdnum, stars, mags, i);
      SessionRecordsStep(visit, ccdnum, stars, mags, dets, snrs, sep, i);
      i := i + 1;
    }
  }

  // -------------------------------------------------------------------------
  // One visit/ccd run

  /** What one run reads, with the values computed by external libraries given
      outright. */
  datatype RunInputs = RunInputs(
    ucac: seq<SkyPos>,            // UCAC4 positions from the catalog query
    ucacMags: seq<real>,          // their `f.mag` column
    matchIdx: seq<nat>,           // nearest local source of each UCAC4 star
    srcX: seq<real>,              // pixel centroids of the local sources
    srcY: seq<real>,
    diaPositions: seq<SkyPos>,    // difference-image detections
    diaDipole: seq<bool>,         // their `classification_dipole` flag
    forcedSnr: seq<real>,         // forced-photometry SNR of each detection
    deltaRa: real,                // shift returned by the shift estimate
    deltaDec: real)

  /** The columns of one table have one length, and the match indexes the local sources. */
  predicate WellFormed(inp: RunInputs) {
    && |inp.ucac| == |inp.ucacMags| == |inp.matchIdx|
    && (forall i :: 0 <= i < |inp.matchIdx| ==> inp.matchIdx[i] < |inp.srcX| && inp.matchIdx[i] < |inp.srcY|)
    && |inp.diaPositions| == |inp.diaDipole| == |inp.forcedSnr|
  }

  /** `shifted_ucac`: each position moved by the estimated shift. */
  function ShiftAll(ps: seq<SkyPos>, dRa: real, dDec: real): (r: seq<SkyPos>)
    ensures |r| == |ps|
    ensures forall k :: 0 <= k < |r| ==> r[k] == SkyPos(ps[k].ra + dRa, ps[k].dec + dDec)
  {
    seq(|ps|, k requires 0 <= k < |ps| => SkyPos(ps[k].ra + dRa, ps[k].dec + dDec))
  }

  /** `ok_ucac` for one run. */
  function OkRows(inp: RunInputs): (ok: seq<nat>)
    requires WellFormed(inp)
  {
    OkStars(inp.matchIdx, inp.srcX, inp.srcY)
  }

  /** `shifted_ucac`: the surviving stars, moved by the estimated shift. */
  function SurvivingStars(inp: RunInputs): seq<SkyPos>
    requires WellFormed(inp)
  {
    ShiftAll(Gather(inp.ucac, OkRows(inp)), inp.deltaRa, inp.deltaDec)
  }

  /** `ok_ucac_mags`: the magnitudes of the surviving stars. */
  function SurvivingMags(inp: RunInputs): seq<real>
    requires WellFormed(inp)
  {
    Gather(inp.ucacMags, OkRows(inp))
  }

  /** Only stars whose match is clear of the chip edges survive, and every
      such star does. The k-th survivor keeps its own position (shifted) and
      its own magnitude: both come from the same catalog row. */
  lemma SurvivorsKeepTheirMagnitudes(inp: RunInputs)
    requires WellFormed(inp)
    ensures var ok := OkRows(inp);
      |SurvivingStars(inp)| == |SurvivingMags(inp)| == |ok| &&
      (forall k :: 0 <= k < |ok| ==>
        && ok[k] < |inp.ucac|
        && SurvivingMags(inp)[k] == inp.ucacMags[ok[k]]
        && SurvivingStars(inp)[k] == SkyPos(inp.ucac[ok[k]].ra + inp.deltaRa, inp.ucac[ok[k]].dec + inp.deltaDec)
        && !NearEdge(inp.srcX[inp.matchIdx[ok[k]]], inp.srcY[inp.matchIdx[ok[k]]])) &&
      (forall i :: 0 <= i < |inp.ucac| && !NearEdge(inp.srcX[inp.matchIdx[i]], inp.srcY[inp.matchIdx[i]]) ==> i in ok)
  {
  }

  /** The correlation step of `star_diffim_correlation` for one visit and ccd:
      filter the detections, check the length assertion, drop the edge stars,
      shift the rest and run the per-star loop. The assertion always holds;
      with a session there is one record per surviving star, without one none. */
  method StarDiffimCorrelation(visit: int, ccdnum: int, inp: RunInputs, sep: (SkyPos, SkyPos) -> real,
                               hasSession: bool)
    returns (added: seq<SourceDetectionCorrelation>, brightLines: seq<BrightStarLine>)
    requires WellFormed(inp)
    ensures CheckCatalogLengths(FilterDetections(inp.diaPositions, inp.forcedSnr, inp.diaDipole)) == None
    ensures |added| == if hasSession then |OkRows(inp)| else 0
    ensures var f := FilterDetections(inp.diaPositions, inp.forcedSnr, inp.diaDipole);
      forall s :: 0 <= s < |added| ==>
        added[s] == StarRecord(visit, ccdnum, SurvivingStars(inp)[s], SurvivingMags(inp)[s], f.positions, f.snrs, sep)
    ensures brightLines == BrightStarLines(visit, ccdnum, SurvivingStars(inp), SurvivingMags(inp))
  {
    var f := FilterDetections(inp.diaPositions, inp.forcedSnr, inp.diaDipole);
    FilteredLengthsAgree(inp.diaPositions, inp.forcedSnr, inp.diaDipole);
    assert CheckCatalogLengths(f).None?;
    var ok := OkStars(inp.matchIdx, inp.srcX, inp.srcY);
    var okMags := Gather(inp.ucacMags, ok);
    var shifted := ShiftAll(Gather(inp.ucac, ok), inp.deltaRa, inp.deltaDec);
    added, brightLines := CorrelateStars(visit, ccdnum, shifted, okMags, f.positions, f.snrs, sep, hasSession);
    assert shifted[..|ok|] == shifted && okMags[..|ok|] == okMags;
  }

}
