/**
 * The `Body` widget of index.tsx without its markup: the merge of the caller's
 * selection list with the static descriptor list of the chosen gender and view,
 * the palette choice for each entry, and the fill and reported click side of
 * every path string that the widget draws.
 */
module BodyHighlighter {
  import opened Wrappers

  /** A body-part identifier ("biceps", "lower-back", ...), kept opaque. */
  type Slug = string

  datatype Side = Left | Right

  datatype Gender = Male | Female

  /** Front or back of the silhouette (the `side` prop of `Body`). */
  datatype View = Front | Back

  /** The path groups of a part; a missing group is `None`. */
  datatype Paths = Paths(common: Option<seq<string>>, left: Option<seq<string>>, right: Option<seq<string>>)

  /** A descriptor of the static anatomical dataset (`BodyPart`). */
  datatype BodyPart = BodyPart(color: Option<string>, slug: Option<Slug>, path: Option<Paths>)

  /** A selection entry, a merged entry or a click payload (`ExtendedBodyPart`). */
  datatype ExtendedBodyPart = ExtendedBodyPart(
    color: Option<string>,
    slug: Option<Slug>,
    path: Option<Paths>,
    intensity: Option<int>,
    leftSideIntensity: Option<int>,
    rightSideIntensity: Option<int>,
    side: Option<Side>)

  /** One drawn path: its path string, its fill, and what a click on it reports. */
  datatype RenderedPath = RenderedPath(d: string, fill: Option<string>, target: ExtendedBodyPart, clickSide: Option<Side>)

  /** The four datasets, one per gender and view. */
  datatype Datasets = Datasets(maleFront: seq<BodyPart>, maleBack: seq<BodyPart>, femaleFront: seq<BodyPart>, femaleBack: seq<BodyPart>)

  /** The palette used when the caller passes no `colors`. */
  const DefaultColors: seq<string> := ["#0984e3", "#74b9ff"]

  /** JavaScript truthiness of an optional number: absent and 0 are falsy. */
  predicate Truthy(n: Option<int>) {
    n.Some? && n.value != 0
  }

  /** `colors[i]`, which is `undefined` outside the palette. */
  function ColorAt(colors: seq<string>, i: int): Option<string> {
    if 0 <= i < |colors| then Some(colors[i]) else None
  }

  /** A descriptor with no selection fields, as the spread `{...bodyPart}` sees it. */
  function Extend(b: BodyPart): ExtendedBodyPart {
    ExtendedBodyPart(b.color, b.slug, b.path, None, None, None, None)
  }

  function ExtendAll(bs: seq<BodyPart>): (r: seq<ExtendedBodyPart>)
    ensures |r| == |bs| && forall k :: 0 <= k < |bs| ==> r[k] == Extend(bs[k])
  {
    seq(|bs|, k requires 0 <= k < |bs| => Extend(bs[k]))
  }

  // ---------------------------------------------------------------------------
  // Slug lookups: `find((e) => e.slug === slug)`, `some(...)` and uniqueness
  // ---------------------------------------------------------------------------

  function DescriptorSlugs(ds: seq<BodyPart>): (r: seq<Option<Slug>>)
    ensures |r| == |ds| && forall k :: 0 <= k < |ds| ==> r[k] == ds[k].slug
  {
    seq(|ds|, k requires 0 <= k < |ds| => ds[k].slug)
  }

  /**
   * The same projection as `DescriptorSlugs`, for selection entries: the two
   * record types are distinct datatypes, as `BodyPart` and `ExtendedBodyPart`
   * are distinct types in the source, so each has its own slug list.
   */
  function SelectionSlugs(data: seq<ExtendedBodyPart>): (r: seq<Option<Slug>>)
    ensures |r| == |data| && forall k :: 0 <= k < |data| ==> r[k] == data[k].slug
  {
    seq(|data|, k requires 0 <= k < |data| => data[k].slug)
  }

  /** No slug (not even the missing one) occurs twice. */
  predicate Distinct(slugs: seq<Option<Slug>>) {
    forall i, j :: 0 <= i < j < |slugs| ==> slugs[i] != slugs[j]
  }

  /** The index of the first occurrence of `s`, or `|slugs|` when there is none. */
  function IndexOf(slugs: seq<Option<Slug>>, s: Option<Slug>): (i: nat)
    ensures i <= |slugs|
    ensures i < |slugs| ==> slugs[i] == s
    ensures forall j :: 0 <= j < i ==> slugs[j] != s
  {
    if slugs == [] then 0
    else if slugs[0] == s then 0
    else 1 + IndexOf(slugs[1..], s)
  }

  /** `dataSource.find((e) => e.slug === s)`: the first descriptor with slug `s`. */
  function FindDescriptor(ds: seq<BodyPart>, s: Option<Slug>): (r: Option<BodyPart>)
    ensures r.None? <==> forall k :: 0 <= k < |ds| ==> ds[k].slug != s
    ensures r.Some? ==> exists k :: 0 <= k < |ds| && ds[k] == r.value && r.value.slug == s &&
                                    forall j :: 0 <= j < k ==> ds[j].slug != s
  {
    var k := IndexOf(DescriptorSlugs(ds), s);
    if k < |ds| then Some(ds[k]) else None
  }

  /** `data.find((e) => e.slug === s)`: the first selection entry with slug `s`. */
  function FindSelection(data: seq<ExtendedBodyPart>, s: Option<Slug>): (r: Option<ExtendedBodyPart>)
    ensures r.None? <==> forall k :: 0 <= k < |data| ==> data[k].slug != s
    ensures r.Some? ==> exists k :: 0 <= k < |data| && data[k] == r.value && r.value.slug == s &&
                                    forall j :: 0 <= j < k ==> data[j].slug != s
  {
    var k := IndexOf(SelectionSlugs(data), s);
    if k < |data| then Some(data[k]) else None
  }

  /** `data.some((e) => e.slug === s)`, which is also `comparison` against every entry. */
  predicate HasSlug(data: seq<ExtendedBodyPart>, s: Option<Slug>)
    ensures HasSlug(data, s) <==> FindSelection(data, s).Some?
  {
    exists k :: 0 <= k < |data| && data[k].slug == s
  }

  // ---------------------------------------------------------------------------
  // mergedBodyParts
  // ---------------------------------------------------------------------------

  /**
   * `differenceWith(comparison, dataSource, data)`: the descriptors whose slug
   * no selection entry has, keeping only the first descriptor of each slug, in
   * dataset order. Written from the back, as the list is built by appending.
   */
  function DifferenceWith(ds: seq<BodyPart>, data: seq<ExtendedBodyPart>): (r: seq<BodyPart>)
    ensures forall k :: 0 <= k < |r| ==> r[k] in ds && !HasSlug(data, r[k].slug)
    ensures forall k :: 0 <= k < |ds| && !HasSlug(data, ds[k].slug) ==> ds[k].slug in DescriptorSlugs(r)
    ensures Distinct(DescriptorSlugs(r))
    decreases |ds|
  {
    if ds == [] then []
    else
      var rest := DifferenceWith(ds[..|ds| - 1], data);
      var d := ds[|ds| - 1];
      assert forall k :: 0 <= k < |ds| - 1 ==> ds[..|ds| - 1][k] == ds[k];
      if HasSlug(data, d.slug) || d.slug in DescriptorSlugs(rest) then rest
      else
        assert DescriptorSlugs(rest + [d]) == DescriptorSlugs(rest) + [d.slug];
        rest + [d]
  }

  /** Reference definition: the descriptors that no selection entry names, in order. */
  function Unselected(ds: seq<BodyPart>, data: seq<ExtendedBodyPart>): (r: seq<BodyPart>)
    ensures |r| <= |ds|
    ensures forall k :: 0 <= k < |r| ==> r[k] in ds && !HasSlug(data, r[k].slug)
    ensures forall k :: 0 <= k < |ds| && !HasSlug(data, ds[k].slug) ==> ds[k] in r
    decreases |ds|
  {
    if ds == [] then []
    else Unselected(ds[..|ds| - 1], data) + (if HasSlug(data, ds[|ds| - 1].slug) then [] else [ds[|ds| - 1]])
  }

  /** index.tsx:92-93: the intensity of the first selection entry with slug `s`, 1 when it is missing or 0. */
  function ColorIntensity(data: seq<ExtendedBodyPart>, s: Option<Slug>): (k: int)
    ensures k != 0
    ensures k != 1 ==> FindSelection(data, s).Some? && FindSelection(data, s).value.intensity == Some(k)
    ensures (forall j :: 0 <= j < |data| ==> data[j].slug != s) ==> k == 1
    ensures FindSelection(data, s).Some? && Truthy(FindSelection(data, s).value.intensity) ==>
              k == FindSelection(data, s).value.intensity.value
  {
    match FindSelection(data, s)
    case Some(e) => if Truthy(e.intensity) then e.intensity.value else 1
    case None => 1
  }

  /** index.tsx:80-94: the merged and coloured entry produced for selection entry `d`. */
  function Colored(ds: seq<BodyPart>, data: seq<ExtendedBodyPart>, colors: seq<string>, d: ExtendedBodyPart): (m: ExtendedBodyPart)
    ensures m.leftSideIntensity == d.leftSideIntensity && m.rightSideIntensity == d.rightSideIntensity
    ensures m.intensity.None? && m.side.None?
    ensures FindDescriptor(ds, d.slug).None? ==> m.slug.None? && m.path.None?
    ensures forall k :: 0 <= k < |ds| && ds[k].slug == d.slug && (forall j :: 0 <= j < k ==> ds[j].slug != d.slug) ==>
              m.slug == d.slug && m.path == ds[k].path
    ensures m.color == ColorAt(colors, ColorIntensity(data, m.slug) - 1)
  {
    var inner :=
      match FindDescriptor(ds, d.slug)
      case Some(b) => ExtendedBodyPart(b.color, b.slug, b.path, None, d.leftSideIntensity, d.rightSideIntensity, None)
      case None => ExtendedBodyPart(None, None, None, None, d.leftSideIntensity, d.rightSideIntensity, None);
    inner.(color := ColorAt(colors, ColorIntensity(data, inner.slug) - 1))
  }

  function ColoredAll(ds: seq<BodyPart>, data: seq<ExtendedBodyPart>, colors: seq<string>): (r: seq<ExtendedBodyPart>)
    ensures |r| == |data| && forall k :: 0 <= k < |data| ==> r[k] == Colored(ds, data, colors, data[k])
  {
    seq(|data|, k requires 0 <= k < |data| => Colored(ds, data, colors, data[k]))
  }

  /** `mergedBodyParts(dataSource)`: the unselected descriptors, then one merged entry per selection entry. */
  function Merged(ds: seq<BodyPart>, data: seq<ExtendedBodyPart>, colors: seq<string>): (r: seq<ExtendedBodyPart>)
    ensures |r| == |DifferenceWith(ds, data)| + |data|
    ensures forall k :: 0 <= k < |r| ==> r[k].intensity.None? && r[k].side.None?
  {
    ExtendAll(DifferenceWith(ds, data)) + ColoredAll(ds, data, colors)
  }

  // ---------------------------------------------------------------------------
  // getColorToFill and the per-path choices of renderBodySvg
  // ---------------------------------------------------------------------------

  /** `getColorToFill(bodyPart, side)`. */
  function GetColorToFill(colors: seq<string>, b: ExtendedBodyPart, side: Option<Side>): (r: Option<string>)
    ensures r.None? || r.value in colors || r == b.color
    ensures side == Some(Left) && Truthy(b.leftSideIntensity) ==> r == ColorAt(colors, b.leftSideIntensity.value - 1)
    ensures side == Some(Right) && Truthy(b.rightSideIntensity) ==> r == ColorAt(colors, b.rightSideIntensity.value - 1)
    ensures !(side == Some(Left) && Truthy(b.leftSideIntensity)) && !(side == Some(Right) && Truthy(b.rightSideIntensity)) ==>
              r == if Truthy(b.intensity) then ColorAt(colors, b.intensity.value) else b.color
  {
    if Truthy(b.leftSideIntensity) && side == Some(Left) then ColorAt(colors, b.leftSideIntensity.value - 1)
    else if Truthy(b.rightSideIntensity) && side == Some(Right) then ColorAt(colors, b.rightSideIntensity.value - 1)
    else if Truthy(b.intensity) then ColorAt(colors, b.intensity.value)
    else b.color
  }

  /** `bodyPart.path?.common || []` and its left and right counterparts; `None` stands for the common group. */
  function GroupPaths(e: ExtendedBodyPart, g: Option<Side>): (r: seq<string>)
    ensures e.path.None? ==> r == []
    ensures e.path.Some? && g.None? ==> r == if e.path.value.common.Some? then e.path.value.common.value else []
    ensures e.path.Some? && g == Some(Left) ==> r == if e.path.value.left.Some? then e.path.value.left.value else []
    ensures e.path.Some? && g == Some(Right) ==> r == if e.path.value.right.Some? then e.path.value.right.value else []
  {
    match e.path
    case None => []
    case Some(p) =>
      var group := match g case None => p.common case Some(Left) => p.left case Some(Right) => p.right;
      match group case Some(paths) => paths case None => []
  }

  /** `data.find((d) => d.slug === s)?.path?.common` is an array (every array is truthy). */
  predicate CommonSelected(data: seq<ExtendedBodyPart>, s: Option<Slug>)
    ensures CommonSelected(data, s) ==> exists k :: 0 <= k < |data| && data[k].slug == s && data[k].path.Some? && data[k].path.value.common.Some?
    ensures (forall k :: 0 <= k < |data| ==> data[k].slug != s) ==> !CommonSelected(data, s)
    ensures forall k :: 0 <= k < |data| && data[k].slug == s && (forall j :: 0 <= j < k ==> data[j].slug != s) ==>
              (CommonSelected(data, s) <==> data[k].path.Some? && data[k].path.value.common.Some?)
  {
    match FindSelection(data, s)
    case Some(x) => x.path.Some? && x.path.value.common.Some?
    case None => false
  }

  /** `data.find((d) => d.slug === s)?.side`. */
  function SelectedSide(data: seq<ExtendedBodyPart>, s: Option<Slug>): (r: Option<Side>)
    ensures r.Some? ==> exists k :: 0 <= k < |data| && data[k].slug == s && data[k].side == r
    ensures (forall k :: 0 <= k < |data| ==> data[k].slug != s) ==> r.None?
    ensures forall k :: 0 <= k < |data| && data[k].slug == s && (forall j :: 0 <= j < k ==> data[j].slug != s) ==> r == data[k].side
  {
    match FindSelection(data, s)
    case Some(x) => x.side
    case None => None
  }

  /** The fill of every path of group `g` of entry `e` (index.tsx:141-143, 161-163, 180-182). */
  function PathFill(e: ExtendedBodyPart, g: Option<Side>, data: seq<ExtendedBodyPart>, colors: seq<string>, defaultColor: string): (r: Option<string>)
    ensures r.None? || r == Some(defaultColor) || r.value in colors || r == e.color
    ensures g.Some? && SelectedSide(data, e.slug) == Some(if g == Some(Left) then Right else Left) ==> r == Some(defaultColor)
    ensures g.Some? && SelectedSide(data, e.slug) != Some(if g == Some(Left) then Right else Left) ==> r == GetColorToFill(colors, e, g)
    ensures g.None? && !CommonSelected(data, e.slug) ==> r == e.color
    ensures g.None? && CommonSelected(data, e.slug) ==> r == GetColorToFill(colors, e, None)
  {
    match g
    case None => if CommonSelected(data, e.slug) then GetColorToFill(colors, e, None) else e.color
    case Some(Left) => if SelectedSide(data, e.slug) == Some(Right) then Some(defaultColor) else GetColorToFill(colors, e, Some(Left))
    case Some(Right) => if SelectedSide(data, e.slug) == Some(Left) then Some(defaultColor) else GetColorToFill(colors, e, Some(Right))
  }

  function RenderGroup(e: ExtendedBodyPart, g: Option<Side>, data: seq<ExtendedBodyPart>, colors: seq<string>, defaultColor: string): (r: seq<RenderedPath>)
    ensures |r| == |GroupPaths(e, g)|
    ensures forall k :: 0 <= k < |r| ==> r[k] == RenderedPath(GroupPaths(e, g)[k], PathFill(e, g, data, colors, defaultColor), e, g)
  {
    var paths := GroupPaths(e, g);
    seq(|paths|, k requires 0 <= k < |paths| => RenderedPath(paths[k], PathFill(e, g, data, colors, defaultColor), e, g))
  }

  /** The paths drawn for one entry: common, then left, then right (index.tsx:129-188). */
  function RenderPart(e: ExtendedBodyPart, data: seq<ExtendedBodyPart>, colors: seq<string>, defaultColor: string): (r: seq<RenderedPath>)
    ensures |r| == |GroupPaths(e, None)| + |GroupPaths(e, Some(Left))| + |GroupPaths(e, Some(Right))|
    ensures forall k :: 0 <= k < |r| ==>
              r[k].target == e &&
              r[k].clickSide == (if k < |GroupPaths(e, None)| then None
                                 else if k < |GroupPaths(e, None)| + |GroupPaths(e, Some(Left))| then Some(Left)
                                 else Some(Right))
  {
    RenderGroup(e, None, data, colors, defaultColor) +
    RenderGroup(e, Some(Left), data, colors, defaultColor) +
    RenderGroup(e, Some(Right), data, colors, defaultColor)
  }

  /** Every rendered entry's paths, entry after entry (index.tsx:128-189). */
  function RenderAll(es: seq<ExtendedBodyPart>, data: seq<ExtendedBodyPart>, colors: seq<string>, defaultColor: string): (r: seq<RenderedPath>)
    ensures forall k :: 0 <= k < |r| ==> r[k].target in es && r[k].fill == PathFill(r[k].target, r[k].clickSide, data, colors, defaultColor)
  {
    if es == [] then [] else RenderPart(es[0], data, colors, defaultColor) + RenderAll(es[1..], data, colors, defaultColor)
  }

  /** index.tsx:194-198: the dataset of the chosen gender and view. */
  function Dataset(sets: Datasets, gender: Gender, view: View): (r: seq<BodyPart>)
    ensures r in [sets.maleFront, sets.maleBack, sets.femaleFront, sets.femaleBack]
    ensures gender == Male && view == Front ==> r == sets.maleFront
    ensures gender == Male && view == Back ==> r == sets.maleBack
    ensures gender == Female && view == Front ==> r == sets.femaleFront
    ensures gender == Female && view == Back ==> r == sets.femaleBack
  {
    match (gender, view)
    case (Female, Front) => sets.femaleFront
    case (Female, Back) => sets.femaleBack
    case (Male, Front) => sets.maleFront
    case (Male, Back) => sets.maleBack
  }

  /** The whole widget: the paths drawn for selection `data`, with the defaults of index.tsx:69-73. */
  function Body(sets: Datasets, data: seq<ExtendedBodyPart>, colors: Option<seq<string>>, view: Option<View>,
                gender: Option<Gender>, defaultColor: string): (r: seq<RenderedPath>)
    ensures forall k :: 0 <= k < |r| ==>
              r[k].fill.None? || r[k].fill == Some(defaultColor) || r[k].fill == r[k].target.color ||
              r[k].fill.value in (if colors.Some? then colors.value else DefaultColors)
  {
    var palette := if colors.Some? then colors.value else DefaultColors;
    var ds := Dataset(sets, if gender == Some(Female) then Female else Male, if view == Some(Back) then Back else Front);
    RenderAll(Merged(ds, data, palette), data, palette, defaultColor)
  }

  // ---------------------------------------------------------------------------
  // Properties
  // ---------------------------------------------------------------------------

  /** With distinct descriptor slugs, `differenceWith` is the order-preserving filter. */
  lemma {:induction false} DifferenceIsUnselected(ds: seq<BodyPart>, data: seq<ExtendedBodyPart>)
    requires Distinct(DescriptorSlugs(ds))
    ensures DifferenceWith(ds, data) == Unselected(ds, data)
    decreases |ds|
  {
    if ds != [] {
      var init, d := ds[..|ds| - 1], ds[|ds| - 1];
      assert DescriptorSlugs(init) == DescriptorSlugs(ds)[..|ds| - 1];
      DifferenceIsUnselected(init, data);
    }
  }

  /** With no selection, no descriptor is filtered out. */
  lemma {:induction false} UnselectedWithoutSelection(ds: seq<BodyPart>)
    ensures Unselected(ds, []) == ds
    decreases |ds|
  {
    if ds != [] {
      UnselectedWithoutSelection(ds[..|ds| - 1]);
      assert ds == ds[..|ds| - 1] + [ds[|ds| - 1]];
    }
  }

  /**
   * index.tsx:79-99: the merge is the unselected descriptors in dataset order,
   * then exactly one merged entry per selection entry in selection order.
   */
  lemma MergedLayout(ds: seq<BodyPart>, data: seq<ExtendedBodyPart>, colors: seq<string>)
    requires Distinct(DescriptorSlugs(ds))
    ensures Merged(ds, data, colors) == ExtendAll(Unselected(ds, data)) + ColoredAll(ds, data, colors)
    ensures |Merged(ds, data, colors)| == |Unselected(ds, data)| + |data|
  {
    DifferenceIsUnselected(ds, data);
  }

  /** index.tsx:97-99: with an empty selection the merge is the dataset, unchanged and in order. */
  lemma MergeWithoutSelection(ds: seq<BodyPart>, colors: seq<string>)
    requires Distinct(DescriptorSlugs(ds))
    ensures Merged(ds, [], colors) == ExtendAll(ds)
  {
    DifferenceIsUnselected(ds, []);
    UnselectedWithoutSelection(ds);
  }

  /** A selection entry naming no descriptor yields an entry that draws no path (index.tsx:81-88, 129, 149, 168). */
  lemma UnmatchedEntryDrawsNothing(ds: seq<BodyPart>, data: seq<ExtendedBodyPart>, colors: seq<string>,
                                   d: ExtendedBodyPart, defaultColor: string)
    requires forall k :: 0 <= k < |ds| ==> ds[k].slug != d.slug
    ensures RenderPart(Colored(ds, data, colors, d), data, colors, defaultColor) == []
  {
  }

  /**
   * Merged entries never carry `intensity`, so the third branch of
   * `getColorToFill` (the one indexing `colors[intensity]`) is never taken for a
   * drawn path, and every common path is filled with its entry's own colour.
   */
  lemma CommonFillIsEntryColor(ds: seq<BodyPart>, data: seq<ExtendedBodyPart>, colors: seq<string>, defaultColor: string)
    ensures forall e :: e in Merged(ds, data, colors) ==>
              e.intensity.None? && PathFill(e, None, data, colors, defaultColor) == e.color
  {
    var m := Merged(ds, data, colors);
    forall e | e in m
      ensures e.intensity.None? && PathFill(e, None, data, colors, defaultColor) == e.color
    {
      var k :| 0 <= k < |m| && m[k] == e;
      CommonFillWithoutIntensity(e, data, colors, defaultColor);
    }
  }

  /** An entry without `intensity` fills its common paths with its own colour. */
  lemma CommonFillWithoutIntensity(e: ExtendedBodyPart, data: seq<ExtendedBodyPart>, colors: seq<string>, defaultColor: string)
    requires e.intensity.None?
    ensures PathFill(e, None, data, colors, defaultColor) == e.color
  {
  }

  /** The drawn paths of one entry, described path by path. */
  lemma RenderPartMembers(e: ExtendedBodyPart, data: seq<ExtendedBodyPart>, colors: seq<string>, defaultColor: string, r: RenderedPath)
    ensures r in RenderPart(e, data, colors, defaultColor) <==>
              r.target == e && r.d in GroupPaths(e, r.clickSide) && r.fill == PathFill(e, r.clickSide, data, colors, defaultColor)
  {
    var c, l, rt := RenderGroup(e, None, data, colors, defaultColor),
                    RenderGroup(e, Some(Left), data, colors, defaultColor),
                    RenderGroup(e, Some(Right), data, colors, defaultColor);
    RenderGroupMembers(e, None, data, colors, defaultColor, r);
    RenderGroupMembers(e, Some(Left), data, colors, defaultColor, r);
    RenderGroupMembers(e, Some(Right), data, colors, defaultColor, r);
    assert r in c + l + rt <==> r in c || r in l || r in rt;
  }

  /** The drawn paths of one group, described path by path. */
  lemma RenderGroupMembers(e: ExtendedBodyPart, g: Option<Side>, data: seq<ExtendedBodyPart>, colors: seq<string>,
                           defaultColor: string, r: RenderedPath)
    ensures r in RenderGroup(e, g, data, colors, defaultColor) <==>
              r.target == e && r.clickSide == g && r.d in GroupPaths(e, g) && r.fill == PathFill(e, g, data, colors, defaultColor)
  {
    var paths := GroupPaths(e, g);
    if r.target == e && r.clickSide == g && r.d in paths && r.fill == PathFill(e, g, data, colors, defaultColor) {
      var k :| 0 <= k < |paths| && paths[k] == r.d;
      assert RenderGroup(e, g, data, colors, defaultColor)[k] == r;
    }
  }

  /**
   * index.tsx:128-189: a path is drawn exactly when it belongs to a group of a
   * rendered entry; a click on it reports that entry, with no side for a
   * common path and the group's side otherwise; its fill is the group's fill.
   */
  lemma {:induction false} RenderAllMembers(es: seq<ExtendedBodyPart>, data: seq<ExtendedBodyPart>, colors: seq<string>,
                                             defaultColor: string, r: RenderedPath)
    ensures r in RenderAll(es, data, colors, defaultColor) <==>
              r.target in es && r.d in GroupPaths(r.target, r.clickSide) &&
              r.fill == PathFill(r.target, r.clickSide, data, colors, defaultColor)
    decreases |es|
  {
    if es != [] {
      RenderPartMembers(es[0], data, colors, defaultColor, r);
      RenderAllMembers(es[1..], data, colors, defaultColor, r);
      assert es == [es[0]] + es[1..];
    }
  }

  /**
   * index.tsx:149-186: while the first selection entry of a slug selects one
   * side only, every path of the other side is drawn in the default colour.
   */
  lemma OneSideLeavesOtherDefault(es: seq<ExtendedBodyPart>, data: seq<ExtendedBodyPart>, colors: seq<string>,
                                  defaultColor: string, r: RenderedPath)
    requires r in RenderAll(es, data, colors, defaultColor)
    requires r.clickSide.Some? && SelectedSide(data, r.target.slug) == Some(if r.clickSide == Some(Left) then Right else Left)
    ensures r.fill == Some(defaultColor)
  {
    RenderAllMembers(es, data, colors, defaultColor, r);
  }

  /** With an empty selection no path of an entry is coloured from the palette or blanked. */
  lemma FillWithoutSelection(b: BodyPart, g: Option<Side>, colors: seq<string>, defaultColor: string)
    ensures PathFill(Extend(b), g, [], colors, defaultColor) == b.color
  {
  }

  /** With an empty selection every path of every descriptor is drawn in the descriptor's own colour. */
  lemma RenderWithoutSelection(ds: seq<BodyPart>, colors: seq<string>, defaultColor: string, r: RenderedPath)
    requires Distinct(DescriptorSlugs(ds))
    ensures r in RenderAll(Merged(ds, [], colors), [], colors, defaultColor) <==>
              (exists k :: 0 <= k < |ds| && r.target == Extend(ds[k])) &&
              r.d in GroupPaths(r.target, r.clickSide) && r.fill == r.target.color
  {
    var es := ExtendAll(ds);
    MergeWithoutSelection(ds, colors);
    RenderAllMembers(es, [], colors, defaultColor, r);
    if r.target in es {
      var k :| 0 <= k < |es| && es[k] == r.target;
      FillWithoutSelection(ds[k], r.clickSide, colors, defaultColor);
    }
    if exists k :: 0 <= k < |ds| && r.target == Extend(ds[k]) {
      var k :| 0 <= k < |ds| && r.target == Extend(ds[k]);
      assert es[k] == r.target;
      FillWithoutSelection(ds[k], r.clickSide, colors, defaultColor);
    }
  }

  /**
   * The widget draws the dataset of the chosen gender and view (female when
   * asked for, male otherwise; front unless back is asked for): with an
   * empty selection, every path of it, in its descriptor's own colour.
   */
  lemma BodyWithoutSelection(sets: Datasets, colors: Option<seq<string>>, view: Option<View>, gender: Option<Gender>,
                             defaultColor: string, r: RenderedPath)
    requires Distinct(DescriptorSlugs(Dataset(sets, if gender == Some(Female) then Female else Male,
                                                    if view == Some(Back) then Back else Front)))
    ensures var ds := Dataset(sets, if gender == Some(Female) then Female else Male, if view == Some(Back) then Back else Front);
            r in Body(sets, [], colors, view, gender, defaultColor) <==>
              (exists k :: 0 <= k < |ds| && r.target == Extend(ds[k])) &&
              r.d in GroupPaths(r.target, r.clickSide) && r.fill == r.target.color
  {
    var palette := if colors.Some? then colors.value else DefaultColors;
    var ds := Dataset(sets, if gender == Some(Female) then Female else Male, if view == Some(Back) then Back else Front);
    RenderWithoutSelection(ds, palette, defaultColor, r);
  }
}
