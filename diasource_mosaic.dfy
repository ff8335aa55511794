/**
 * The helpers of python/diasource_mosaic.py: paging the detections into
 * groups, the visit-to-template table, the choice of a cutout centre from the
 * dipole centroids, and cutting a square window out of an image.
 *
 * Pixel values are left generic, centroids are reals with NaN written as
 * `None`, and cutout centres are integers.
 */
module DiasourceMosaic {
  import opened Wrappers

  // -------------------------------------------------------------------------
  // group_items

  /** The groups `group_items` yields from offset `start` on: the slice
      `items[start:start + groupLength]`, then the groups from the next offset. */
  function GroupsFrom<T>(items: seq<T>, groupLength: nat, start: nat): seq<seq<T>>
    requires groupLength > 0
    decreases |items| - start
  {
    if start >= |items| then []
    else [items[start..Min(start + groupLength, |items|)]] + GroupsFrom(items, groupLength, start + groupLength)
  }

  /** `group_items(items, group_length)`: one group per offset of
      `xrange(0, len(items), group_length)`. A step of zero is an error of
      `xrange`; a negative step gives an empty range. */
  function GroupItems<T>(items: seq<T>, groupLength: int): seq<seq<T>>
    requires groupLength != 0
  {
    if groupLength < 0 then [] else GroupsFrom(items, groupLength, 0)
  }

  /** The groups joined end to end. */
  function Concat<T>(groups: seq<seq<T>>): seq<T> {
    if groups == [] then [] else groups[0] + Concat(groups[1..])
  }

  lemma {:induction false} GroupsFromConcat<T>(items: seq<T>, groupLength: nat, start: nat)
    requires groupLength > 0 && start <= |items|
    ensures Concat(GroupsFrom(items, groupLength, start)) == items[start..]
    decreases |items| - start
  {
    if start < |items| {
      var stop := Min(start + groupLength, |items|);
      var rest := GroupsFrom(items, groupLength, start + groupLength);
      if start + groupLength <= |items| {
        GroupsFromConcat(items, groupLength, start + groupLength);
      }
      assert Concat(rest) == items[stop..];
      var groups := GroupsFrom(items, groupLength, start);
      assert groups[0] == items[start..stop] && groups[1..] == rest;
      assert items[start..] == items[start..stop] + items[stop..];
    }
  }

  /** Joining the groups in order gives back the items unchanged. */
  lemma GroupItemsConcat<T>(items: seq<T>, groupLength: int)
    requires groupLength > 0
    ensures Concat(GroupItems(items, groupLength)) == items
  {
    GroupsFromConcat(items, groupLength, 0);
  }

  lemma {:induction false} GroupsFromShape<T>(items: seq<T>, groupLength: nat, start: nat)
    requires groupLength > 0 && start <= |items|
    ensures var groups := GroupsFrom(items, groupLength, start);
      && (|groups| - 1) * groupLength < |items| - start <= |groups| * groupLength
      && (forall k :: 0 <= k < |groups| - 1 ==> |groups[k]| == groupLength)
      && (forall k :: 0 <= k < |groups| ==> 0 < |groups[k]| <= groupLength)
    decreases |items| - start
  {
    var groups := GroupsFrom(items, groupLength, start);
    if start < |items| {
      var rest := GroupsFrom(items, groupLength, start + groupLength);
      if start + groupLength <= |items| {
        GroupsFromShape(items, groupLength, start + groupLength);
        assert |groups| == |rest| + 1;
        assert (|groups| - 1) * groupLength == |rest| * groupLength;
        assert |groups| * groupLength == |rest| * groupLength + groupLength;
        if rest != [] {
          assert (|rest| - 1) * groupLength == |rest| * groupLength - groupLength;
        }
        forall k | 0 <= k < |groups|
          ensures 0 < |groups[k]| <= groupLength && (k < |groups| - 1 ==> |groups[k]| == groupLength)
        {
          if k > 0 { assert groups[k] == rest[k - 1]; }
        }
      } else {
        assert rest == [];
        assert |groups| == 1;
      }
    }
  }

  /** The number of groups is the length divided by the group length,
      rounded up (so empty input yields no group); every group but the last
      holds exactly `groupLength` items, and the last holds between one and
      `groupLength`. */
  lemma GroupItemsShape<T>(items: seq<T>, groupLength: int)
    requires groupLength > 0
    ensures var groups := GroupItems(items, groupLength);
      && |groups| == (|items| + groupLength - 1) / groupLength
      && (forall k :: 0 <= k < |groups| - 1 ==> |groups[k]| == groupLength)
      && (groups != [] ==> 0 < |groups[|groups| - 1]| <= groupLength)
  {
    var groups := GroupItems(items, groupLength);
    GroupsFromShape(items, groupLength, 0);
    CeilingQuotient(|items|, groupLength, |groups|);
  }

  /** A count `q` with `(q - 1) * d < a <= q * d` is `a / d` rounded up. */
  lemma CeilingQuotient(a: nat, d: nat, q: nat)
    requires d > 0
    requires (q - 1) * d < a <= q * d
    ensures q == (a + d - 1) / d
  {
    var r := (a + d - 1) / d;
    var m := (a + d - 1) % d;
    assert a + d - 1 == r * d + m && 0 <= m < d;
    assert q * d < (r + 1) * d;
    assert r * d < (q + 1) * d;
    ProductOrder(q, r + 1, d);
    ProductOrder(r, q + 1, d);
  }

  /** Multiplying by a positive number keeps strict order. */
  lemma ProductOrder(x: int, y: int, d: int)
    requires d > 0 && x * d < y * d
    ensures x < y
  {
  }

  // -------------------------------------------------------------------------
  // Visit-to-template table

  /** A template exposure with the science visits that were differenced
      against it. */
  datatype TemplateEntry = TemplateEntry(template: int, visits: seq<int>)

  /** `template_catalog`, in the order its entries are written. */
  const TemplateCatalog: seq<TemplateEntry> := [
    TemplateEntry(197790, [197790, 197802, 198372, 198376, 198380, 198384]),
    TemplateEntry(197662, [197662, 198668, 199009, 199021, 199033]),
    TemplateEntry(197408, [197400, 197404, 197408, 197412]),
    TemplateEntry(197384, [197384, 197388, 197392]),
    TemplateEntry(197371, [197367, 197371, 197375, 197379])
  ]

  /** What one entry contributes: each of its visits maps to its template. */
  function EntryMap(e: TemplateEntry): map<int, int> {
    map v | v in e.visits :: e.template
  }

  /** The table the inversion loop leaves after the given entries, taken in
      order; on a visit listed twice the later entry wins. */
  function Inverted(catalog: seq<TemplateEntry>): map<int, int> {
    if catalog == [] then map[]
    else Inverted(catalog[..|catalog| - 1]) + EntryMap(catalog[|catalog| - 1])
  }

  /** No visit is listed under two templates. */
  ghost predicate Disjoint(catalog: seq<TemplateEntry>) {
    forall i, j, v :: 0 <= i < j < |catalog| && v in catalog[i].visits ==> v !in catalog[j].visits
  }

  /** The inversion loop of the module body: for every template and every
      visit listed under it, set `template_visit_catalog[visit] = template`. */
  method InvertTemplateCatalog(catalog: seq<TemplateEntry>) returns (m: map<int, int>)
    ensures m == Inverted(catalog)
  {
    m := map[];
    var i := 0;
    while i < |catalog|
      invariant 0 <= i <= |catalog|
      invariant m == Inverted(catalog[..i])
    {
      var entry := catalog[i];
      var j := 0;
      while j < |entry.visits|
        invariant 0 <= j <= |entry.visits|
        invariant m == Inverted(catalog[..i]) + EntryMap(TemplateEntry(entry.template, entry.visits[..j]))
      {
        InsertVisit(Inverted(catalog[..i]), entry.template, entry.visits, j);
        m := m[entry.visits[j] := entry.template];
        j := j + 1;
      }
      assert entry.visits[..j] == entry.visits;
      assert catalog[..i + 1][..i] == catalog[..i];
      i := i + 1;
    }
    assert catalog[..|catalog|] == catalog;
  }

  /** One step of the inner loop adds one visit of the entry. */
  lemma InsertVisit(base: map<int, int>, template: int, visits: seq<int>, j: nat)
    requires j < |visits|
    ensures (base + EntryMap(TemplateEntry(template, visits[..j])))[visits[j] := template]
         == base + EntryMap(TemplateEntry(template, visits[..j + 1]))
  {
    assert forall v :: v in visits[..j + 1] <==> v in visits[..j] || v == visits[j];
  }

  /** A visit is a key of the table exactly when some entry lists it. */
  lemma {:induction false} InvertedKeys(catalog: seq<TemplateEntry>, v: int)
    ensures v in Inverted(catalog) <==> exists i :: 0 <= i < |catalog| && v in catalog[i].visits
  {
    if catalog != [] {
      var n := |catalog| - 1;
      var front := catalog[..n];
      InvertedKeys(front, v);
      if v in Inverted(catalog) && v !in EntryMap(catalog[n]) {
        var i :| 0 <= i < |front| && v in front[i].visits;
        assert catalog[i] == front[i];
      }
      if exists i :: 0 <= i < |catalog| && v in catalog[i].visits {
        var i :| 0 <= i < |catalog| && v in catalog[i].visits;
        if i < n {
          assert front[i] == catalog[i];
        }
      }
    }
  }

  /** When no visit is listed twice, every visit maps to the template it is
      listed under. */
  lemma {:induction false} InvertedLookup(catalog: seq<TemplateEntry>, i: nat, v: int)
    requires Disjoint(catalog)
    requires i < |catalog| && v in catalog[i].visits
    ensures v in Inverted(catalog) && Inverted(catalog)[v] == catalog[i].template
  {
    var n := |catalog| - 1;
    var front := catalog[..n];
    if i < n {
      assert front[i] == catalog[i];
      assert Disjoint(front);
      InvertedLookup(front, i, v);
      assert v !in catalog[n].visits;
    }
  }

  /** With disjoint lists the table does not depend on the order in which the
      entries are visited (a dictionary's iteration order is unspecified). */
  lemma InvertedOrderIndependent(c1: seq<TemplateEntry>, c2: seq<TemplateEntry>)
    requires Disjoint(c1) && Disjoint(c2)
    requires multiset(c1) == multiset(c2)
    ensures Inverted(c1) == Inverted(c2)
  {
    forall v | v in Inverted(c1) ensures v in Inverted(c2) && Inverted(c2)[v] == Inverted(c1)[v] {
      InvertedKeys(c1, v);
      var i :| 0 <= i < |c1| && v in c1[i].visits;
      assert c1[i] in multiset(c2);
      var j :| 0 <= j < |c2| && c2[j] == c1[i];
      InvertedLookup(c1, i, v);
      InvertedLookup(c2, j, v);
    }
    forall v | v in Inverted(c2) ensures v in Inverted(c1) {
      InvertedKeys(c2, v);
      var j :| 0 <= j < |c2| && v in c2[j].visits;
      assert c2[j] in multiset(c1);
      var i :| 0 <= i < |c1| && c1[i] == c2[j];
      InvertedKeys(c1, v);
    }
  }

  /** `template_visit_catalog`. */
  const TemplateVisitCatalog: map<int, int> := Inverted(TemplateCatalog)

  /** The visits of each entry of the data set lie in a band of visit
      numbers of their own. */
  ghost predicate InBand(k: int, v: int) {
    if k == 0 then 197790 <= v <= 198384
    else if k == 1 then v == 197662 || 198668 <= v <= 199033
    else if k == 2 then 197400 <= v <= 197412
    else if k == 3 then 197384 <= v <= 197392
    else 197367 <= v <= 197379
  }

  /** Every entry of the data set keeps to its band and lists its own template. */
  lemma CatalogEntryFacts(k: nat)
    requires k < |TemplateCatalog|
    ensures forall v :: v in TemplateCatalog[k].visits ==> InBand(k, v)
    ensures TemplateCatalog[k].template in TemplateCatalog[k].visits
  {
    var c := TemplateCatalog;
    if k == 0 { assert c[0].visits == [197790, 197802, 198372, 198376, 198380, 198384]; }
    else if k == 1 { assert c[1].visits == [197662, 198668, 199009, 199021, 199033]; }
    else if k == 2 { assert c[2].visits == [197400, 197404, 197408, 197412]; }
    else if k == 3 { assert c[3].visits == [197384, 197388, 197392]; }
    else { assert c[4].visits == [197367, 197371, 197375, 197379]; }
  }

  /** No visit of the data set is listed under two templates. */
  lemma TemplateCatalogDisjoint()
    ensures Disjoint(TemplateCatalog)
  {
    var c := TemplateCatalog;
    forall i, j, v | 0 <= i < j < |c| && v in c[i].visits
      ensures v !in c[j].visits
    {
      CatalogEntryFacts(i);
      CatalogEntryFacts(j);
    }
  }

  /** `template_visit_catalog[visit]`; `None` where Python raises KeyError. */
  function TemplateFor(catalog: seq<TemplateEntry>, visit: int): (r: Option<int>)
    ensures r.Some? <==> exists i :: 0 <= i < |catalog| && visit in catalog[i].visits
    ensures Disjoint(catalog) ==>
      forall i :: 0 <= i < |catalog| && visit in catalog[i].visits ==> r == Some(catalog[i].template)
  {
    var table := Inverted(catalog);
    InvertedKeys(catalog, visit);
    assert Disjoint(catalog) ==>
      forall i :: 0 <= i < |catalog| && visit in catalog[i].visits ==>
        visit in table && table[visit] == catalog[i].template
    by {
      if Disjoint(catalog) {
        forall i | 0 <= i < |catalog| && visit in catalog[i].visits
          ensures visit in table && table[visit] == catalog[i].template
        {
          InvertedLookup(catalog, i, visit);
        }
      }
    }
    if visit in table then Some(table[visit]) else None
  }

  /** Every template of the data set is listed under itself, so looking a
      template up gives the template; a visit listed nowhere (197500, say) is
      not found. */
  lemma TemplatesMapToThemselves()
    ensures forall i :: 0 <= i < |TemplateCatalog| ==>
      TemplateFor(TemplateCatalog, TemplateCatalog[i].template) == Some(TemplateCatalog[i].template)
    ensures TemplateFor(TemplateCatalog, 197500) == None
  {
    var c := TemplateCatalog;
    TemplateCatalogDisjoint();
    forall i | 0 <= i < |c|
      ensures TemplateFor(c, c[i].template) == Some(c[i].template)
      ensures 197500 !in c[i].visits
    {
      CatalogEntryFacts(i);
    }
  }

  /** The same facts read off `template_visit_catalog` itself: the table the
      module body builds sends every template to itself and has no entry
      for 197500, so looking that visit up raises. */
  lemma TemplateVisitCatalogFacts()
    ensures forall i :: 0 <= i < |TemplateCatalog| ==>
      TemplateCatalog[i].template in TemplateVisitCatalog &&
      TemplateVisitCatalog[TemplateCatalog[i].template] == TemplateCatalog[i].template
    ensures 197500 !in TemplateVisitCatalog
  {
    TemplatesMapToThemselves();
  }

  // -------------------------------------------------------------------------
  // make_source_center

  /** The positive and negative NaiveDipoleCentroid readings of a detection,
      in pixels; `None` stands for NaN. */
  datatype DipoleCentroids = DipoleCentroids(posX: Option<real>, posY: Option<real>,
                                             negX: Option<real>, negY: Option<real>)
  {
    /** `have_pos`: neither positive coordinate is NaN. */
    predicate HavePos() { posX.Some? && posY.Some? }

    /** `have_neg`: neither negative coordinate is NaN. */
    predicate HaveNeg() { negX.Some? && negY.Some? }

    /** The same readings with the positive and negative lobes exchanged. */
    function Swapped(): DipoleCentroids { DipoleCentroids(negX, negY, posX, posY) }
  }

  predicate Between(a: real, b: real, m: real) {
    (a <= m <= b) || (b <= m <= a)
  }

  /** `make_source_center`: the midpoint of the two centroids when both are
      there, else the positive one unless only the negative one is there.
      The centre is a number in both coordinates exactly when at least one
      centroid is; with both, it is equally far from each of them in each
      coordinate, and so lies between them. */
  function MakeSourceCenter(c: DipoleCentroids): (centre: (Option<real>, Option<real>))
    ensures centre.0.Some? && centre.1.Some? <==> c.HavePos() || c.HaveNeg()
    ensures c.HavePos() && c.HaveNeg() ==>
      && centre.0.value - c.posX.value == c.negX.value - centre.0.value
      && centre.1.value - c.posY.value == c.negY.value - centre.1.value
    ensures c.HavePos() && c.HaveNeg() ==>
      Between(c.posX.value, c.negX.value, centre.0.value) && Between(c.posY.value, c.negY.value, centre.1.value)
  {
    if c.HavePos() && c.HaveNeg() then
      (Some(0.5 * (c.posX.value + c.negX.value)), Some(0.5 * (c.posY.value + c.negY.value)))
    else if !c.HaveNeg() then
      (c.posX, c.posY)
    else
      (c.negX, c.negY)
  }

  /** Whenever a centroid is present, the centre does not depend on which
      lobe is called positive: the midpoint is symmetric, and a single
      present centroid is chosen wherever it sits. */
  lemma SourceCenterSymmetric(c: DipoleCentroids)
    requires c.HavePos() || c.HaveNeg()
    ensures MakeSourceCenter(c.Swapped()) == MakeSourceCenter(c)
  {
  }

  /** With exactly one centroid present the centre is that centroid; with
      none, the (partly missing) positive readings are returned. */
  lemma SourceCenterSingleLobe(c: DipoleCentroids)
    ensures c.HavePos() && !c.HaveNeg() ==> MakeSourceCenter(c) == (c.posX, c.posY)
    ensures !c.HavePos() && c.HaveNeg() ==> MakeSourceCenter(c) == (c.negX, c.negY)
    ensures !c.HavePos() && !c.HaveNeg() ==> MakeSourceCenter(c) == (c.posX, c.posY)
  {
  }

  // -------------------------------------------------------------------------
  // make_cutout

  /** How CPython adjusts one bound of a slice with step 1 against a sequence
      of length `len`: a negative bound counts from the end, and the result is
      clipped to [0, len]. */
  function SliceIndex(len: nat, i: int): (r: nat)
    ensures r <= len
    ensures 0 <= i <= len ==> r == i
    ensures i < 0 && 0 <= len + i ==> r == len + i
    ensures len + i < 0 ==> r == 0
    ensures i > len ==> r == len
  {
    if i < 0 then (if i + len < 0 then 0 else i + len)
    else if i > len then len else i
  }

  /** `s[lo:hi]` with Python's semantics. For `lo <= hi` the slice is never
      longer than `hi - lo`, and for bounds inside `s` it is the plain slice. */
  function PySlice<T>(s: seq<T>, lo: int, hi: int): (r: seq<T>)
    ensures |r| <= |s|
    ensures lo <= hi ==> |r| <= hi - lo
    ensures 0 <= lo <= hi <= |s| ==> r == s[lo..hi]
  {
    var start := SliceIndex(|s|, lo);
    var stop := SliceIndex(|s|, hi);
    if start < stop then s[start..stop] else []
  }

  /** `make_cutout`: rows `x - s/2 : x + s/2`, then columns
      `y - s/2 : y + s/2`, of a two-dimensional image. */
  function MakeCutout<T>(img: seq<seq<T>>, x: int, y: int, cutoutSize: nat): (cutout: seq<seq<T>>)
    requires cutoutSize % 2 == 0
    ensures |cutout| <= cutoutSize
  {
    var half := cutoutSize / 2;
    SliceColumns(PySlice(img, x - half, x + half), y - half, y + half)
  }

  /** Wherever the centre lies, a cutout never has more than `s` rows, nor
      any row more than `s` columns. */
  lemma CutoutNeverLarger<T>(img: seq<seq<T>>, x: int, y: int, cutoutSize: nat)
    requires cutoutSize % 2 == 0
    ensures var cutout := MakeCutout(img, x, y, cutoutSize);
      && |cutout| <= cutoutSize
      && forall i :: 0 <= i < |cutout| ==> |cutout[i]| <= cutoutSize
  {
  }

  /** The second index of a two-dimensional slice: `rows[:, lo:hi]`. */
  function SliceColumns<T>(rows: seq<seq<T>>, lo: int, hi: int): (r: seq<seq<T>>)
    ensures |r| == |rows|
    ensures forall i :: 0 <= i < |r| ==> r[i] == PySlice(rows[i], lo, hi)
  {
    seq(|rows|, i requires 0 <= i < |rows| => PySlice(rows[i], lo, hi))
  }

  /** A window that lies inside the image is cut out exactly: `s` rows, row
      i being pixels `y - s/2 .. y + s/2` (exclusive) of image row `x - s/2 + i`. */
  lemma CutoutInsideImage<T>(img: seq<seq<T>>, x: int, y: int, cutoutSize: nat)
    requires cutoutSize % 2 == 0
    requires 0 <= x - cutoutSize / 2 && x + cutoutSize / 2 <= |img|
    requires 0 <= y - cutoutSize / 2
    requires forall r :: 0 <= r < |img| ==> y + cutoutSize / 2 <= |img[r]|
    ensures var cutout := MakeCutout(img, x, y, cutoutSize);
      && |cutout| == cutoutSize
      && forall i :: 0 <= i < cutoutSize ==>
        cutout[i] == img[x - cutoutSize / 2 + i][y - cutoutSize / 2..y + cutoutSize / 2]
  {
    CutoutIsWindow(img, x, y, cutoutSize);
    WindowOfRows(img, x - cutoutSize / 2, x + cutoutSize / 2, y - cutoutSize / 2, y + cutoutSize / 2);
  }

  /** `make_cutout` as the two slices it performs. */
  lemma CutoutIsWindow<T>(img: seq<seq<T>>, x: int, y: int, cutoutSize: nat)
    requires cutoutSize % 2 == 0
    ensures MakeCutout(img, x, y, cutoutSize) == SliceColumns(
      PySlice(img, x - cutoutSize / 2, x + cutoutSize / 2), y - cutoutSize / 2, y + cutoutSize / 2)
  {
  }

  /** `img[lo:hi, ylo:yhi]` for a window inside the image is the plain
      window, row by row. */
  lemma WindowOfRows<T>(img: seq<seq<T>>, lo: int, hi: int, ylo: int, yhi: int)
    requires 0 <= lo <= hi <= |img| && 0 <= ylo <= yhi
    requires forall r :: 0 <= r < |img| ==> yhi <= |img[r]|
    ensures var w := SliceColumns(PySlice(img, lo, hi), ylo, yhi);
      && |w| == hi - lo
      && forall i :: 0 <= i < hi - lo ==> w[i] == img[lo + i][ylo..yhi]
  {
    var rows := PySlice(img, lo, hi);
    assert rows == img[lo..hi];
    forall i | 0 <= i < hi - lo
      ensures SliceColumns(rows, ylo, yhi)[i] == img[lo + i][ylo..yhi]
    {
      assert rows[i] == img[lo + i];
    }
  }

  /** A centre closer than `s/2` to the first row, with the window reaching
      into the image, gives an empty cutout when the image has at least `s`
      rows: the negative start counts from the far end of the image and lands
      past the stop. */
  lemma CutoutNearLowEdgeIsEmpty<T>(img: seq<seq<T>>, x: int, y: int, cutoutSize: nat)
    requires cutoutSize % 2 == 0 && cutoutSize <= |img|
    requires x - cutoutSize / 2 < 0 <= x + cutoutSize / 2
    ensures MakeCutout(img, x, y, cutoutSize) == []
  {
  }

  /** The same happens in the other index: a centre closer than `s/2` to the
      first column, with the window reaching into rows of at least `s`
      columns, gives `s` rows that are all empty. */
  lemma CutoutNearLeftEdgeIsEmpty<T>(img: seq<seq<T>>, x: int, y: int, cutoutSize: nat)
    requires cutoutSize % 2 == 0
    requires 0 <= x - cutoutSize / 2 && x + cutoutSize / 2 <= |img|
    requires y - cutoutSize / 2 < 0 <= y + cutoutSize / 2
    requires forall r :: 0 <= r < |img| ==> cutoutSize <= |img[r]|
    ensures var cutout := MakeCutout(img, x, y, cutoutSize);
      && |cutout| == cutoutSize
      && forall i :: 0 <= i < cutoutSize ==> cutout[i] == []
  {
    CutoutIsWindow(img, x, y, cutoutSize);
    var rows := PySlice(img, x - cutoutSize / 2, x + cutoutSize / 2);
    assert rows == img[x - cutoutSize / 2..x + cutoutSize / 2];
    forall i | 0 <= i < |rows|
      ensures PySlice(rows[i], y - cutoutSize / 2, y + cutoutSize / 2) == []
    {
      assert rows[i] == img[x - cutoutSize / 2 + i];
    }
  }

  /** The window `[lo, hi)` intersected with the indices of `s`. */
  function ClippedSlice<T>(s: seq<T>, lo: int, hi: int): (r: seq<T>)
    ensures |r| == Max(0, Min(hi, |s|) - Max(lo, 0))
    ensures forall k :: 0 <= k < |r| ==> r[k] == s[Max(lo, 0) + k]
  {
    var start := Min(Max(lo, 0), |s|);
    var stop := Max(Min(hi, |s|), 0);
    if start < stop then s[start..stop] else []
  }

  /** The cutout as evidently intended: the part of the window that lies
      inside the image, clipped at every edge instead of wrapping. */
  function MakeClippedCutout<T>(img: seq<seq<T>>, x: int, y: int, cutoutSize: nat): (cutout: seq<seq<T>>)
    requires cutoutSize % 2 == 0
    ensures |cutout| == Max(0, Min(x + cutoutSize / 2, |img|) - Max(x - cutoutSize / 2, 0))
    ensures forall i :: 0 <= i < |cutout| ==>
      var row := img[Max(x - cutoutSize / 2, 0) + i];
      && |cutout[i]| == Max(0, Min(y + cutoutSize / 2, |row|) - Max(y - cutoutSize / 2, 0))
      && forall j :: 0 <= j < |cutout[i]| ==> cutout[i][j] == row[Max(y - cutoutSize / 2, 0) + j]
  {
    var half := cutoutSize / 2;
    var rows := ClippedSlice(img, x - half, x + half);
    seq(|rows|, i requires 0 <= i < |rows| => ClippedSlice(rows[i], y - half, y + half))
  }

  /** Near the first row the clipped cutout keeps the `x + s/2` rows that lie
      inside the image, where the cutout as written has none. */
  lemma ClippedCutoutNearLowEdge<T>(img: seq<seq<T>>, x: int, y: int, cutoutSize: nat)
    requires cutoutSize % 2 == 0 && cutoutSize <= |img|
    requires x - cutoutSize / 2 < 0 <= x + cutoutSize / 2
    ensures |MakeClippedCutout(img, x, y, cutoutSize)| == x + cutoutSize / 2
    ensures MakeCutout(img, x, y, cutoutSize) == []
  {
    CutoutNearLowEdgeIsEmpty(img, x, y, cutoutSize);
  }
}
