/**
 * The demo application of example/src/App.tsx: the selection list it holds,
 * the side-aware toggle applied on every click of a body part, and the
 * intensity picker that rewrites every selected entry.
 */
module DemoApp {
  import opened Wrappers
  import opened BodyHighlighter

  /** The palette handed to the widget; swatch `k` sets intensity `k + 1`. */
  const PickerColors: seq<string> := ["#fee2e2", "#fca5a5", "#ef4444", "#b91c1c", "#7f1d1d"]

  /** `side === "left" ? "right" : "left"`. */
  function Opposite(side: Side): (r: Side)
    ensures r != side
  {
    if side == Left then Right else Left
  }

  /** `filter((bodyPart) => bodyPart.slug !== s)`. */
  function WithoutSlug(parts: seq<ExtendedBodyPart>, s: Option<Slug>): (r: seq<ExtendedBodyPart>)
    ensures |r| <= |parts|
  {
    if parts == [] then []
    else (if parts[0].slug == s then [] else [parts[0]]) + WithoutSlug(parts[1..], s)
  }

  /** `map((p) => p.slug === s ? { ...p, side } : p)`. */
  function WithSide(parts: seq<ExtendedBodyPart>, s: Option<Slug>, side: Option<Side>): (r: seq<ExtendedBodyPart>)
    ensures |r| == |parts|
    ensures forall k :: 0 <= k < |parts| ==> r[k] == if parts[k].slug == s then parts[k].(side := side) else parts[k]
  {
    seq(|parts|, k requires 0 <= k < |parts| => if parts[k].slug == s then parts[k].(side := side) else parts[k])
  }

  /** `map((bodyPart) => ({ ...bodyPart, intensity }))`. */
  function WithIntensity(parts: seq<ExtendedBodyPart>, intensity: int): (r: seq<ExtendedBodyPart>)
    ensures |r| == |parts|
    ensures forall k :: 0 <= k < |parts| ==> r[k] == parts[k].(intensity := Some(intensity))
  {
    seq(|parts|, k requires 0 <= k < |parts| => parts[k].(intensity := Some(intensity)))
  }

  /** `bothSidesSelected`: an entry with slug `s` and no side. */
  predicate BothSidesSelected(parts: seq<ExtendedBodyPart>, s: Option<Slug>)
    ensures BothSidesSelected(parts, s) ==> HasSlug(parts, s)
  {
    exists k :: 0 <= k < |parts| && parts[k].slug == s && parts[k].side.None?
  }

  /** `oppositeSideSelected`: an entry with slug `s` whose side is not `side`. */
  predicate OppositeSideSelected(parts: seq<ExtendedBodyPart>, s: Option<Slug>, side: Side)
    ensures OppositeSideSelected(parts, s, side) ==> HasSlug(parts, s)
  {
    exists k :: 0 <= k < |parts| && parts[k].slug == s && parts[k].side.Some? && parts[k].side != Some(side)
  }

  /** `bodyPartSideSelected`: an entry with slug `s` whose side is `side`. */
  predicate SideSelected(parts: seq<ExtendedBodyPart>, s: Option<Slug>, side: Side)
    ensures SideSelected(parts, s, side) ==> HasSlug(parts, s)
  {
    exists k :: 0 <= k < |parts| && parts[k].slug == s && parts[k].side == Some(side)
  }

  /**
   * The list `handleBodyPartClick(b, side)` leaves behind, with `intensity` the
   * picker's current intensity. The guards are tested in the source's order;
   * when a slug is selected one of the three side guards always holds, so the
   * final branch (no update at all) is never reached.
   */
  function Click(parts: seq<ExtendedBodyPart>, b: ExtendedBodyPart, side: Option<Side>, intensity: int): (r: seq<ExtendedBodyPart>)
    ensures HasSlug(parts, b.slug) ==> |r| <= |parts|
    ensures !HasSlug(parts, b.slug) ==> |r| == |parts| + 1 && r[|parts|].slug == b.slug && r[|parts|].intensity == Some(intensity)
  {
    if side.None? then
      if HasSlug(parts, b.slug) then WithoutSlug(parts, b.slug)
      else parts + [b.(intensity := Some(intensity))]
    else if OppositeSideSelected(parts, b.slug, side.value) then WithSide(parts, b.slug, None)
    else if BothSidesSelected(parts, b.slug) then WithSide(parts, b.slug, Some(Opposite(side.value)))
    else if SideSelected(parts, b.slug, side.value) then WithoutSlug(parts, b.slug)
    else if !HasSlug(parts, b.slug) then parts + [b.(side := side, intensity := Some(intensity))]
    else parts
  }

  /**
   * Reference definition of the per-slug state machine: from the entry held
   * for the clicked slug (`None` when absent), the entry held after the click.
   * A held entry has no side (both sides selected) or one side.
   */
  function NextEntry(held: Option<ExtendedBodyPart>, b: ExtendedBodyPart, side: Option<Side>, intensity: int): (r: Option<ExtendedBodyPart>)
    ensures side.None? ==> (r.Some? <==> held.None?)
    ensures held.None? ==> r.Some? && r.value.intensity == Some(intensity) && (side.Some? ==> r.value.side == side)
    ensures held.Some? && r.Some? ==> r.value.(side := held.value.side) == held.value && r.value.side != held.value.side
  {
    match (held, side)
    case (None, None) => Some(b.(intensity := Some(intensity)))
    case (Some(_), None) => None
    case (None, Some(s)) => Some(b.(side := Some(s), intensity := Some(intensity)))
    case (Some(x), Some(s)) =>
      if x.side == None then Some(x.(side := Some(Opposite(s))))
      else if x.side == Some(s) then None
      else Some(x.(side := None))
  }

  /** Every entry carries intensity `intensity`. */
  predicate AllAtIntensity(parts: seq<ExtendedBodyPart>, intensity: int) {
    forall k :: 0 <= k < |parts| ==> parts[k].intensity == Some(intensity)
  }

  // ---------------------------------------------------------------------------
  // Lemmas about the list operations
  // ---------------------------------------------------------------------------

  /** The filter removes every entry with slug `s` and keeps only entries of the list. */
  lemma {:induction false} WithoutSlugDrops(parts: seq<ExtendedBodyPart>, s: Option<Slug>)
    ensures !HasSlug(WithoutSlug(parts, s), s)
    ensures forall k :: 0 <= k < |WithoutSlug(parts, s)| ==> WithoutSlug(parts, s)[k] in parts
    decreases |parts|
  {
    if parts != [] {
      WithoutSlugDrops(parts[1..], s);
      var head := if parts[0].slug == s then [] else [parts[0]];
      var rest := WithoutSlug(parts[1..], s);
      forall k | 0 <= k < |head + rest|
        ensures (head + rest)[k] in parts && (head + rest)[k].slug != s
      {
        if k >= |head| {
          assert (head + rest)[k] == rest[k - |head|];
        }
      }
    }
  }

  lemma {:induction false} WithoutSlugAbsent(parts: seq<ExtendedBodyPart>, s: Option<Slug>)
    requires !HasSlug(parts, s)
    ensures WithoutSlug(parts, s) == parts
    decreases |parts|
  {
    if parts != [] {
      assert parts[0].slug != s;
      WithoutSlugAbsent(parts[1..], s);
    }
  }

  lemma {:induction false} WithoutSlugAppend(p: seq<ExtendedBodyPart>, q: seq<ExtendedBodyPart>, s: Option<Slug>)
    ensures WithoutSlug(p + q, s) == WithoutSlug(p, s) + WithoutSlug(q, s)
    decreases |p|
  {
    if p != [] {
      assert (p + q)[1..] == p[1..] + q;
      WithoutSlugAppend(p[1..], q, s);
    } else {
      assert p + q == q;
    }
  }

  lemma {:induction false} WithoutSlugWithSide(parts: seq<ExtendedBodyPart>, s: Option<Slug>, side: Option<Side>)
    ensures WithoutSlug(WithSide(parts, s, side), s) == WithoutSlug(parts, s)
    decreases |parts|
  {
    if parts != [] {
      assert WithSide(parts, s, side)[1..] == WithSide(parts[1..], s, side);
      WithoutSlugWithSide(parts[1..], s, side);
    }
  }

  lemma DistinctCons(x: Option<Slug>, t: seq<Option<Slug>>)
    requires Distinct(t) && x !in t
    ensures Distinct([x] + t)
  {
    forall i, j | 0 <= i < j < |[x] + t| ensures ([x] + t)[i] != ([x] + t)[j] {
      if i == 0 {
        assert ([x] + t)[j] == t[j - 1];
      } else {
        assert ([x] + t)[i] == t[i - 1] && ([x] + t)[j] == t[j - 1];
      }
    }
  }

  lemma {:induction false} WithoutSlugKeepsDistinct(parts: seq<ExtendedBodyPart>, s: Option<Slug>)
    requires Distinct(SelectionSlugs(parts))
    ensures Distinct(SelectionSlugs(WithoutSlug(parts, s)))
    decreases |parts|
  {
    if parts != [] {
      var tail := parts[1..];
      assert SelectionSlugs(tail) == SelectionSlugs(parts)[1..];
      WithoutSlugKeepsDistinct(tail, s);
      var rest := WithoutSlug(tail, s);
      if parts[0].slug != s {
        WithoutSlugDrops(tail, s);
        forall k | 0 <= k < |rest| ensures SelectionSlugs(rest)[k] != parts[0].slug {
          var j :| 0 <= j < |tail| && tail[j] == rest[k];
          assert SelectionSlugs(parts)[j + 1] == rest[k].slug;
        }
        assert SelectionSlugs([parts[0]] + rest) == [parts[0].slug] + SelectionSlugs(rest);
        DistinctCons(parts[0].slug, SelectionSlugs(rest));
      }
    }
  }

  lemma WithIntensityAppend(p: seq<ExtendedBodyPart>, q: seq<ExtendedBodyPart>, intensity: int)
    ensures WithIntensity(p + q, intensity) == WithIntensity(p, intensity) + WithIntensity(q, intensity)
  {
    assert forall k :: 0 <= k < |p| + |q| ==>
      WithIntensity(p + q, intensity)[k] == (WithIntensity(p, intensity) + WithIntensity(q, intensity))[k];
  }

  lemma {:induction false} WithoutSlugWithIntensity(parts: seq<ExtendedBodyPart>, s: Option<Slug>, intensity: int)
    ensures WithIntensity(WithoutSlug(parts, s), intensity) == WithoutSlug(WithIntensity(parts, intensity), s)
    decreases |parts|
  {
    if parts != [] {
      var rest := parts[1..];
      var q := WithIntensity(parts, intensity);
      var head := if parts[0].slug == s then [] else [parts[0]];
      var qhead := if q[0].slug == s then [] else [q[0]];
      assert q[1..] == WithIntensity(rest, intensity);
      assert WithIntensity(head, intensity) == qhead;
      WithoutSlugWithIntensity(rest, s, intensity);
      WithIntensityAppend(head, WithoutSlug(rest, s), intensity);
      calc {
        WithIntensity(WithoutSlug(parts, s), intensity);
        WithIntensity(head + WithoutSlug(rest, s), intensity);
        WithIntensity(head, intensity) + WithIntensity(WithoutSlug(rest, s), intensity);
        qhead + WithoutSlug(q[1..], s);
        WithoutSlug(q, s);
      }
    }
  }

  /**
   * Under distinct slugs the three side guards read the one entry held for `s`:
   * no side, the other side, or the clicked side; a held slug meets exactly one.
   */
  lemma GuardsReadHeldEntry(parts: seq<ExtendedBodyPart>, s: Option<Slug>, side: Side)
    requires Distinct(SelectionSlugs(parts))
    ensures var held := FindSelection(parts, s);
            (BothSidesSelected(parts, s) <==> held.Some? && held.value.side.None?) &&
            (OppositeSideSelected(parts, s, side) <==> held.Some? && held.value.side == Some(Opposite(side))) &&
            (SideSelected(parts, s, side) <==> held.Some? && held.value.side == Some(side))
  {
    var held := FindSelection(parts, s);
    if held.Some? {
      FoundIsOnly(parts, s, held.value);
      if held.value.side.Some? && held.value.side != Some(side) {
        var v := held.value.side.value;
        assert v != side;
        assert v == Opposite(side);
      }
    }
  }

  /** Under distinct slugs, the entry found for `s` is the only one with slug `s`. */
  lemma FoundIsOnly(parts: seq<ExtendedBodyPart>, s: Option<Slug>, x: ExtendedBodyPart)
    requires Distinct(SelectionSlugs(parts)) && FindSelection(parts, s) == Some(x)
    ensures forall k :: 0 <= k < |parts| && parts[k].slug == s ==> parts[k] == x
  {
    var k0 :| 0 <= k0 < |parts| && parts[k0] == x && x.slug == s;
    forall k | 0 <= k < |parts| && parts[k].slug == s ensures parts[k] == x {
      assert SelectionSlugs(parts)[k] == SelectionSlugs(parts)[k0];
    }
  }

  lemma FindAfterAppend(parts: seq<ExtendedBodyPart>, e: ExtendedBodyPart)
    requires !HasSlug(parts, e.slug)
    ensures FindSelection(parts + [e], e.slug) == Some(e)
  {
    var q := parts + [e];
    assert q[|parts|].slug == e.slug;
    var r := FindSelection(q, e.slug);
    var k :| 0 <= k < |q| && q[k] == r.value && r.value.slug == e.slug;
    if k < |parts| {
      assert parts[k].slug == e.slug;
    }
  }

  lemma FindAfterWithSide(parts: seq<ExtendedBodyPart>, s: Option<Slug>, side: Option<Side>, x: ExtendedBodyPart)
    requires FindSelection(parts, s) == Some(x)
    ensures FindSelection(WithSide(parts, s, side), s) == Some(x.(side := side))
  {
    assert SelectionSlugs(WithSide(parts, s, side)) == SelectionSlugs(parts);
  }

  // ---------------------------------------------------------------------------
  // Properties of a click
  // ---------------------------------------------------------------------------

  /** example/src/App.tsx:32-33, 54-64, 69-80, 84-85: entries of other slugs are kept, unchanged and in order. */
  lemma ClickKeepsOthers(parts: seq<ExtendedBodyPart>, b: ExtendedBodyPart, side: Option<Side>, intensity: int)
    ensures WithoutSlug(Click(parts, b, side, intensity), b.slug) == WithoutSlug(parts, b.slug)
  {
    var s := b.slug;
    var next := Click(parts, b, side, intensity);
    if next == WithoutSlug(parts, s) {
      WithoutSlugDrops(parts, s);
      WithoutSlugAbsent(WithoutSlug(parts, s), s);
    } else if side.Some? && (OppositeSideSelected(parts, s, side.value) || BothSidesSelected(parts, s)) {
      WithoutSlugWithSide(parts, s, if OppositeSideSelected(parts, s, side.value) then None else Some(Opposite(side.value)));
    } else if next != parts {
      var e :| next == parts + [e] && e.slug == s;
      WithoutSlugAppend(parts, [e], s);
    }
  }

  /** Every transition keeps at most one entry per slug. */
  lemma ClickKeepsDistinct(parts: seq<ExtendedBodyPart>, b: ExtendedBodyPart, side: Option<Side>, intensity: int)
    requires Distinct(SelectionSlugs(parts))
    ensures Distinct(SelectionSlugs(Click(parts, b, side, intensity)))
  {
    var s := b.slug;
    var next := Click(parts, b, side, intensity);
    if next == WithoutSlug(parts, s) {
      WithoutSlugKeepsDistinct(parts, s);
    } else if side.Some? && (OppositeSideSelected(parts, s, side.value) || BothSidesSelected(parts, s)) {
      var v := if OppositeSideSelected(parts, s, side.value) then None else Some(Opposite(side.value));
      assert SelectionSlugs(WithSide(parts, s, v)) == SelectionSlugs(parts);
    } else if next != parts {
      var e :| next == parts + [e] && e.slug == s && !HasSlug(parts, s);
      assert SelectionSlugs(next) == SelectionSlugs(parts) + [s];
    }
  }

  /**
   * example/src/App.tsx:26-93: with at most one entry per slug, a click moves
   * the clicked slug's entry exactly as the state table `NextEntry` says.
   */
  lemma ClickFollowsTable(parts: seq<ExtendedBodyPart>, b: ExtendedBodyPart, side: Option<Side>, intensity: int)
    requires Distinct(SelectionSlugs(parts))
    ensures FindSelection(Click(parts, b, side, intensity), b.slug) == NextEntry(FindSelection(parts, b.slug), b, side, intensity)
  {
    var s := b.slug;
    var held := FindSelection(parts, s);
    if held.None? {
      if side.None? {
        FindAfterAppend(parts, b.(intensity := Some(intensity)));
      } else {
        FindAfterAppend(parts, b.(side := side, intensity := Some(intensity)));
      }
    } else {
      var x := held.value;
      WithoutSlugDrops(parts, s);
      if side.Some? {
        GuardsReadHeldEntry(parts, s, side.value);
        if x.side.Some? && x.side != side {
          FindAfterWithSide(parts, s, None, x);
        } else if x.side.None? {
          FindAfterWithSide(parts, s, Some(Opposite(side.value)), x);
        }
      }
    }
  }

  /** Every entry a click leaves behind carries the intensity the picker holds. */
  lemma ClickKeepsIntensity(parts: seq<ExtendedBodyPart>, b: ExtendedBodyPart, side: Option<Side>, intensity: int)
    requires AllAtIntensity(parts, intensity)
    ensures AllAtIntensity(Click(parts, b, side, intensity), intensity)
  {
    var next := Click(parts, b, side, intensity);
    if next == WithoutSlug(parts, b.slug) {
      WithoutSlugDrops(parts, b.slug);
      forall k | 0 <= k < |next| ensures next[k].intensity == Some(intensity) {
        var j :| 0 <= j < |parts| && parts[j] == next[k];
      }
    }
  }

  /** example/src/App.tsx:30-40: clicking a common path twice on an absent slug gives back the list. */
  lemma SidelessToggleRoundTrip(parts: seq<ExtendedBodyPart>, b: ExtendedBodyPart, intensity: int)
    requires !HasSlug(parts, b.slug)
    ensures Click(Click(parts, b, None, intensity), b, None, intensity) == parts
  {
    var e := b.(intensity := Some(intensity));
    assert (parts + [e])[|parts|].slug == b.slug;
    WithoutSlugAppend(parts, [e], b.slug);
    WithoutSlugAbsent(parts, b.slug);
  }

  /** example/src/App.tsx:49-51, 83-93: clicking the same side twice on an absent slug gives back the list. */
  lemma SidedToggleRoundTrip(parts: seq<ExtendedBodyPart>, b: ExtendedBodyPart, side: Side, intensity: int)
    requires !HasSlug(parts, b.slug)
    ensures Click(Click(parts, b, Some(side), intensity), b, Some(side), intensity) == parts
  {
    var e := b.(side := Some(side), intensity := Some(intensity));
    var once := parts + [e];
    assert once[|parts|].slug == b.slug;
    WithoutSlugAppend(parts, [e], b.slug);
    WithoutSlugAbsent(parts, b.slug);
  }

  /**
   * From an absent slug, clicking left, right, right, left selects the left
   * side, both sides, the left side again, and then nothing.
   */
  lemma SideCycle(parts: seq<ExtendedBodyPart>, b: ExtendedBodyPart, intensity: int)
    requires Distinct(SelectionSlugs(parts)) && !HasSlug(parts, b.slug)
    ensures var one := Click(parts, b, Some(Left), intensity);
            var two := Click(one, b, Some(Right), intensity);
            var three := Click(two, b, Some(Right), intensity);
            FindSelection(one, b.slug) == Some(b.(side := Some(Left), intensity := Some(intensity))) &&
            FindSelection(two, b.slug) == Some(b.(side := None, intensity := Some(intensity))) &&
            FindSelection(three, b.slug) == Some(b.(side := Some(Left), intensity := Some(intensity))) &&
            Click(three, b, Some(Left), intensity) == parts
  {
    var s := b.slug;
    var one := Click(parts, b, Some(Left), intensity);
    ClickStep(parts, b, Some(Left), intensity);
    var two := Click(one, b, Some(Right), intensity);
    ClickStep(one, b, Some(Right), intensity);
    var three := Click(two, b, Some(Right), intensity);
    ClickStep(two, b, Some(Right), intensity);
    var four := Click(three, b, Some(Left), intensity);
    ClickStep(three, b, Some(Left), intensity);
    assert FindSelection(four, s).None?;
    assert !HasSlug(four, s);
    WithoutSlugAbsent(four, s);
    WithoutSlugAbsent(parts, s);
  }

  /** One click, as the table, the uniqueness of slugs and the untouched other entries see it. */
  lemma ClickStep(parts: seq<ExtendedBodyPart>, b: ExtendedBodyPart, side: Option<Side>, intensity: int)
    requires Distinct(SelectionSlugs(parts))
    ensures var next := Click(parts, b, side, intensity);
            Distinct(SelectionSlugs(next)) &&
            FindSelection(next, b.slug) == NextEntry(FindSelection(parts, b.slug), b, side, intensity) &&
            WithoutSlug(next, b.slug) == WithoutSlug(parts, b.slug)
  {
    ClickFollowsTable(parts, b, side, intensity);
    ClickKeepsDistinct(parts, b, side, intensity);
    ClickKeepsOthers(parts, b, side, intensity);
  }

  // ---------------------------------------------------------------------------
  // Properties of the intensity picker
  // ---------------------------------------------------------------------------

  /** Applying two intensities in turn is applying the last one. */
  lemma WithIntensityLastWins(parts: seq<ExtendedBodyPart>, i: int, j: int)
    ensures WithIntensity(WithIntensity(parts, i), j) == WithIntensity(parts, j)
  {
  }

  /** Rewriting the intensity keeps the slugs, hence their uniqueness, and every held entry's side. */
  lemma WithIntensityKeepsSelection(parts: seq<ExtendedBodyPart>, intensity: int, s: Option<Slug>)
    ensures SelectionSlugs(WithIntensity(parts, intensity)) == SelectionSlugs(parts)
    ensures match FindSelection(parts, s)
            case None => FindSelection(WithIntensity(parts, intensity), s).None?
            case Some(x) => FindSelection(WithIntensity(parts, intensity), s) == Some(x.(intensity := Some(intensity)))
  {
    assert SelectionSlugs(WithIntensity(parts, intensity)) == SelectionSlugs(parts);
  }

  /** Changing the intensity before a click or after it leaves the same list. */
  lemma ClickCommutesWithIntensity(parts: seq<ExtendedBodyPart>, b: ExtendedBodyPart, side: Option<Side>, i: int, j: int)
    ensures WithIntensity(Click(parts, b, side, i), j) == Click(WithIntensity(parts, j), b, side, j)
  {
    var s := b.slug;
    GuardsIgnoreIntensity(parts, s, if side.Some? then side.value else Left, j);
    WithoutSlugWithIntensity(parts, s, j);
  }

  /** Rewriting the intensity changes none of the guards a click tests. */
  lemma GuardsIgnoreIntensity(parts: seq<ExtendedBodyPart>, s: Option<Slug>, sd: Side, j: int)
    ensures var q := WithIntensity(parts, j);
            HasSlug(q, s) == HasSlug(parts, s) &&
            OppositeSideSelected(q, s, sd) == OppositeSideSelected(parts, s, sd) &&
            BothSidesSelected(q, s) == BothSidesSelected(parts, s) &&
            SideSelected(q, s, sd) == SideSelected(parts, s, sd)
  {
    var q := WithIntensity(parts, j);
    assert HasSlug(q, s) == HasSlug(parts, s) by {
      if HasSlug(parts, s) { var k :| 0 <= k < |parts| && parts[k].slug == s; assert q[k].slug == s; }
      if HasSlug(q, s) { var k :| 0 <= k < |q| && q[k].slug == s; assert parts[k].slug == s; }
    }
    assert OppositeSideSelected(q, s, sd) == OppositeSideSelected(parts, s, sd) by {
      if OppositeSideSelected(parts, s, sd) {
        var k :| 0 <= k < |parts| && parts[k].slug == s && parts[k].side.Some? && parts[k].side != Some(sd);
        assert q[k].slug == s && q[k].side == parts[k].side;
      }
      if OppositeSideSelected(q, s, sd) {
        var k :| 0 <= k < |q| && q[k].slug == s && q[k].side.Some? && q[k].side != Some(sd);
        assert parts[k].slug == s && q[k].side == parts[k].side;
      }
    }
    assert BothSidesSelected(q, s) == BothSidesSelected(parts, s) by {
      if BothSidesSelected(parts, s) {
        var k :| 0 <= k < |parts| && parts[k].slug == s && parts[k].side.None?;
        assert q[k].slug == s && q[k].side == parts[k].side;
      }
      if BothSidesSelected(q, s) {
        var k :| 0 <= k < |q| && q[k].slug == s && q[k].side.None?;
        assert parts[k].slug == s && q[k].side == parts[k].side;
      }
    }
    assert SideSelected(q, s, sd) == SideSelected(parts, s, sd) by {
      if SideSelected(parts, s, sd) {
        var k :| 0 <= k < |parts| && parts[k].slug == s && parts[k].side == Some(sd);
        assert q[k].slug == s && q[k].side == parts[k].side;
      }
      if SideSelected(q, s, sd) {
        var k :| 0 <= k < |q| && q[k].slug == s && q[k].side == Some(sd);
        assert parts[k].slug == s && q[k].side == parts[k].side;
      }
    }
  }

  /**
   * In the demo every entry carries a picker intensity, so every merged entry
   * has a colour, and one that names a descriptor has the current swatch.
   */
  lemma DemoPartsHaveColor(ds: seq<BodyPart>, parts: seq<ExtendedBodyPart>, intensity: int)
    requires AllAtIntensity(parts, intensity) && 1 <= intensity <= |PickerColors|
    ensures forall k :: 0 <= k < |parts| ==> Colored(ds, parts, PickerColors, parts[k]).color.Some?
    ensures forall k :: 0 <= k < |parts| && FindDescriptor(ds, parts[k].slug).Some? ==>
              Colored(ds, parts, PickerColors, parts[k]).color == Some(PickerColors[intensity - 1])
  {
    forall k | 0 <= k < |parts|
      ensures Colored(ds, parts, PickerColors, parts[k]).color.Some?
      ensures FindDescriptor(ds, parts[k].slug).Some? ==>
                Colored(ds, parts, PickerColors, parts[k]).color == Some(PickerColors[intensity - 1])
    {
      DemoPartHasColor(ds, parts, intensity, parts[k]);
      if FindDescriptor(ds, parts[k].slug).Some? {
        assert FindSelection(parts, parts[k].slug).Some?;
      }
    }
  }

  lemma DemoPartHasColor(ds: seq<BodyPart>, parts: seq<ExtendedBodyPart>, intensity: int, d: ExtendedBodyPart)
    requires AllAtIntensity(parts, intensity) && 1 <= intensity <= |PickerColors|
    ensures var m := Colored(ds, parts, PickerColors, d);
            m.color.Some? && (FindSelection(parts, m.slug).Some? ==> m.color == Some(PickerColors[intensity - 1]))
            && (FindDescriptor(ds, d.slug).Some? ==> m.slug == d.slug)
  {
    var m := Colored(ds, parts, PickerColors, d);
    match FindSelection(parts, m.slug)
    case Some(e) =>
      var k :| 0 <= k < |parts| && parts[k] == e;
      assert ColorIntensity(parts, m.slug) == intensity;
    case None =>
    if FindDescriptor(ds, d.slug).Some? {
      var j :| 0 <= j < |ds| && ds[j] == FindDescriptor(ds, d.slug).value && ds[j].slug == d.slug &&
               forall i :: 0 <= i < j ==> ds[i].slug != d.slug;
    }
  }

  // ---------------------------------------------------------------------------
  // The component's held state
  // ---------------------------------------------------------------------------

  /** The state `App` holds through `useState`: the selection list and the current intensity. */
  class App {
    var bodyParts: seq<ExtendedBodyPart>
    var intensity: int

    /** No slug is selected twice, and every entry carries the current intensity. */
    predicate Valid()
      reads this
    {
      Distinct(SelectionSlugs(bodyParts)) && AllAtIntensity(bodyParts, intensity)
    }

    /** example/src/App.tsx:17, 20: nothing selected, intensity 1. */
    constructor ()
      ensures Valid() && bodyParts == [] && intensity == 1
    {
      bodyParts := [];
      intensity := 1;
    }

    /** `handleBodyPartClick(b, side)`: one toggle of the clicked slug. */
    method HandleBodyPartClick(b: ExtendedBodyPart, side: Option<Side>)
      requires Valid()
      modifies this
      ensures Valid() && intensity == old(intensity)
      ensures bodyParts == Click(old(bodyParts), b, side, intensity)
      ensures FindSelection(bodyParts, b.slug) == NextEntry(FindSelection(old(bodyParts), b.slug), b, side, intensity)
      ensures WithoutSlug(bodyParts, b.slug) == WithoutSlug(old(bodyParts), b.slug)
    {
      ClickKeepsDistinct(bodyParts, b, side, intensity);
      ClickKeepsIntensity(bodyParts, b, side, intensity);
      ClickFollowsTable(bodyParts, b, side, intensity);
      ClickKeepsOthers(bodyParts, b, side, intensity);
      bodyParts := Click(bodyParts, b, side, intensity);
    }

    /** `handleIntensityClick(i)`: the new intensity, written into every entry. */
    method HandleIntensityClick(i: int)
      requires Valid()
      modifies this
      ensures Valid() && intensity == i
      ensures bodyParts == WithIntensity(old(bodyParts), i)
      ensures SelectionSlugs(bodyParts) == SelectionSlugs(old(bodyParts))
    {
      WithIntensityKeepsSelection(bodyParts, i, None);
      intensity := i;
      bodyParts := WithIntensity(bodyParts, i);
    }

    /** A click on swatch `colorIndex` of the picker (example/src/App.tsx:209-212). */
    method PickSwatch(colorIndex: nat)
      requires Valid() && colorIndex < |PickerColors|
      modifies this
      ensures Valid() && intensity == colorIndex + 1 && 1 <= intensity <= |PickerColors|
      ensures bodyParts == WithIntensity(old(bodyParts), intensity)
    {
      HandleIntensityClick(colorIndex + 1);
    }
  }
}
