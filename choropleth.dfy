/**
 * The choropleth map: the colour band of each region, the touch/click flag, the hover
 * and leave handlers that drive the selection, and the highlight that tags the selected
 * regions and raises them to the top of the draw order.
 */
module Choropleth {
  import opened Wrappers
  import opened JsSemantics
  import opened MapExplorer

  /** The four fills, from the highest band to the lowest. */
  datatype Band = Severe | Elevated | Low | NonPositive

  function BandColour(b: Band): string
  {
    match b
    case Severe => "#e41a1c"
    case Elevated => "#fc8d62"
    case Low => "#1f78b4"
    case NonPositive => "#1b9e77"
  }

  lemma BandColoursDistinct(b1: Band, b2: Band)
    ensures BandColour(b1) == BandColour(b2) <==> b1 == b2
  {
  }

  /**
   * The fill band of a value: [0.02, ∞), [0.01, 0.02), (0, 0.01) and everything at or
   * below 0. Every value falls in exactly one band.
   */
  function FillBand(n: real): (b: Band)
    ensures b == Severe <==> n >= 0.02
    ensures b == Elevated <==> 0.01 <= n < 0.02
    ensures b == Low <==> 0.0 < n < 0.01
    ensures b == NonPositive <==> n <= 0.0
  {
    if n >= 0.02 then Severe
    else if n < 0.02 && n >= 0.01 then Elevated
    else if n < 0.01 && n > 0.0 then Low
    else NonPositive
  }

  /**
   * `parseFloat(mapData[name]) || 0.00`: the region's value, or 0 when the region has no
   * entry (NaN). A region without a name is looked up under the key "undefined"; the key
   * `__proto__` reads `Object.prototype`, which is NaN as well.
   */
  function RegionValue(mapData: map<string, int>, name: Option<string>): real
  {
    var key := JsString(name);
    if key != ProtoKey && key in mapData then mapData[key] as real else 0.0
  }

  function RegionBand(mapData: map<string, int>, name: Option<string>): Band
  {
    FillBand(RegionValue(mapData, name))
  }

  /** A region the statistic map does not know, or one named `__proto__`, is filled with the lowest band. */
  lemma AbsentRegionIsLowestBand(mapData: map<string, int>, name: Option<string>)
    requires JsString(name) !in mapData || JsString(name) == ProtoKey
    ensures RegionBand(mapData, name) == NonPositive
  {
  }

  /**
   * The values the map explorer hands over are integer sums, so only the outer bands
   * occur: a positive sum is at least 1 and gets the highest band, any other the lowest.
   */
  lemma IntegerSumsUseOuterBands(states: seq<WardRecord>, name: Option<string>)
    ensures var key := JsString(name);
      var b := RegionBand(WardStatistic(states), name);
      && (b == Severe <==> key in WardStatistic(states) && WardStatistic(states)[key] > 0)
      && (b == NonPositive <==> !(key in WardStatistic(states) && WardStatistic(states)[key] > 0))
      && b != Elevated && b != Low
  {
    WardStatisticExcludesTotal(states);
  }

  /** A region feature of the topology; `id` stands for the identity of its datum object. */
  datatype Feature = Feature(id: nat, name: Option<string>)

  /** One drawn region path: its datum, its fill and whether it carries the `map-hover` class. */
  datatype PathNode = PathNode(feature: Feature, fill: Band, hover: bool)

  /** `name === d.properties.st_nm`: only a selected name can match. */
  predicate Matches(f: Feature, selection: Selection)
  {
    selection.Selected? && selection.name == f.name
  }

  /** The paths a render draws, in the order of the features, none highlighted. */
  function DrawRegions(features: seq<Feature>, mapData: map<string, int>): (paths: seq<PathNode>)
    ensures |paths| == |features|
    ensures forall i :: 0 <= i < |paths| ==>
              paths[i].feature == features[i] && paths[i].fill == RegionBand(mapData, features[i].name) && !paths[i].hover
  {
    seq(|features|, i requires 0 <= i < |features| => PathNode(features[i], RegionBand(mapData, features[i].name), false))
  }

  // ---------------------------------------------------------------------------------
  // Touch/click disambiguation: the `onceTouchedRegion` flag as a two-state machine.
  // ---------------------------------------------------------------------------------

  /** `touchstart` on `d`: touching the armed region disarms, touching any other arms it. */
  function Touchstart(touched: Option<Feature>, d: Feature): Option<Feature>
  {
    if touched == Some(d) then None else Some(d)
  }

  /** `mouseleave` on `d`: disarms only when `d` is the armed region. */
  function Mouseleave(touched: Option<Feature>, d: Feature): Option<Feature>
  {
    if touched == Some(d) then None else touched
  }

  /**
   * Two touches on the same region from the idle state, or from that region armed,
   * come back to where they started; from another region armed they end idle.
   */
  lemma TouchTwice(touched: Option<Feature>, d: Feature)
    ensures Touchstart(Touchstart(touched, d), d) == (if touched == Some(d) then touched else None)
  {
  }

  /** After a touch the armed region is the touched one, or nothing; never a third region. */
  lemma TouchArmsOnlyTouched(touched: Option<Feature>, d: Feature)
    ensures Touchstart(touched, d) == None <==> touched == Some(d)
    ensures Touchstart(touched, d) != None ==> Touchstart(touched, d) == Some(d)
  {
  }

  /**
   * Leaving a region leaves no flag on it and never arms one; the flag changes exactly
   * when it was on the region left, and a flag on any other region is kept.
   */
  lemma LeaveDisarms(touched: Option<Feature>, d: Feature)
    ensures Mouseleave(touched, d) != Some(d)
    ensures Mouseleave(touched, d) == None || Mouseleave(touched, d) == touched
    ensures Mouseleave(touched, d) != touched <==> touched == Some(d)
    ensures touched != Some(d) ==> Mouseleave(touched, d) == touched
  {
  }

  // ---------------------------------------------------------------------------------
  // Highlighting: tag the matching paths and move each one to the end, in turn.
  // ---------------------------------------------------------------------------------

  predicate AllKept(s: seq<PathNode>, selection: Selection)
  {
    forall i :: 0 <= i < |s| ==> !Matches(s[i].feature, selection) && !s[i].hover
  }

  predicate AllRaised(s: seq<PathNode>, selection: Selection)
  {
    forall i :: 0 <= i < |s| ==> Matches(s[i].feature, selection) && s[i].hover
  }

  /** The non-matching paths of `s`, in their order, with the class removed. */
  function Kept(s: seq<PathNode>, selection: Selection): seq<PathNode>
  {
    if s == [] then []
    else
      var last := s[|s| - 1];
      Kept(s[..|s| - 1], selection) + (if Matches(last.feature, selection) then [] else [last.(hover := false)])
  }

  /** The matching paths of `s`, in their order, with the class set. */
  function Raised(s: seq<PathNode>, selection: Selection): seq<PathNode>
  {
    if s == [] then []
    else
      var last := s[|s| - 1];
      Raised(s[..|s| - 1], selection) + (if Matches(last.feature, selection) then [last.(hover := true)] else [])
  }

  /** The draw order after highlighting: the other paths in order, then the matching ones in order. */
  function Highlighted(s: seq<PathNode>, selection: Selection): seq<PathNode>
  {
    Kept(s, selection) + Raised(s, selection)
  }

  /** The paths without their class: what a highlight may reorder but not change. */
  function Untagged(s: seq<PathNode>): (r: seq<PathNode>)
    ensures |r| == |s|
  {
    seq(|s|, i requires 0 <= i < |s| => s[i].(hover := false))
  }

  lemma {:induction false} KeptRaisedLength(s: seq<PathNode>, selection: Selection)
    ensures |Kept(s, selection)| + |Raised(s, selection)| == |s|
  {
    if s != [] {
      KeptRaisedLength(s[..|s| - 1], selection);
    }
  }

  /** The kept paths are the non-matching ones, untagged; the raised ones the matching ones, tagged. */
  lemma {:induction false} KeptAndRaisedTags(s: seq<PathNode>, selection: Selection)
    ensures AllKept(Kept(s, selection), selection)
    ensures AllRaised(Raised(s, selection), selection)
  {
    if s != [] {
      KeptAndRaisedTags(s[..|s| - 1], selection);
    }
  }

  /** Exactly the paths whose name is the selected one carry the `map-hover` class afterwards. */
  lemma HighlightTagsExactlyMatches(s: seq<PathNode>, selection: Selection)
    ensures |Highlighted(s, selection)| == |s|
    ensures forall i :: 0 <= i < |s| ==>
              (Highlighted(s, selection)[i].hover <==> Matches(Highlighted(s, selection)[i].feature, selection))
  {
    KeptRaisedLength(s, selection);
    KeptAndRaisedTags(s, selection);
    var k := Kept(s, selection);
    var h := Highlighted(s, selection);
    assert forall i :: 0 <= i < |k| ==> h[i] == k[i];
    assert forall i :: |k| <= i < |h| ==> h[i] == Raised(s, selection)[i - |k|];
  }

  lemma UntaggedConcat(a: seq<PathNode>, b: seq<PathNode>)
    ensures Untagged(a + b) == Untagged(a) + Untagged(b)
  {
  }

  lemma {:induction false} KeptRaisedMultiset(s: seq<PathNode>, selection: Selection)
    ensures multiset(Untagged(Kept(s, selection))) + multiset(Untagged(Raised(s, selection))) == multiset(Untagged(s))
  {
    if s != [] {
      var p, last := s[..|s| - 1], s[|s| - 1];
      KeptRaisedMultiset(p, selection);
      assert s == p + [last];
      UntaggedConcat(p, [last]);
      var k, r := Kept(p, selection), Raised(p, selection);
      if Matches(last.feature, selection) {
        var t := last.(hover := true);
        assert Kept(s, selection) == k && Raised(s, selection) == r + [t];
        UntaggedConcat(r, [t]);
        assert Untagged([t]) == Untagged([last]);
        assert multiset(Untagged(r + [t])) == multiset(Untagged(r)) + multiset(Untagged([last]));
      } else {
        var t := last.(hover := false);
        assert Kept(s, selection) == k + [t] && Raised(s, selection) == r;
        UntaggedConcat(k, [t]);
        assert Untagged([t]) == Untagged([last]);
        assert multiset(Untagged(k + [t])) == multiset(Untagged(k)) + multiset(Untagged([last]));
      }
    }
  }

  /** Highlighting only reorders the paths: the same paths, with the same fills, before and after. */
  lemma HighlightIsPermutation(s: seq<PathNode>, selection: Selection)
    ensures multiset(Untagged(Highlighted(s, selection))) == multiset(Untagged(s))
  {
    KeptRaisedMultiset(s, selection);
    UntaggedConcat(Kept(s, selection), Raised(s, selection));
  }

  /** When nothing matches (no selection, or a name no region has), no path is tagged and the order stays. */
  lemma {:induction false} HighlightWithoutMatchKeepsOrder(s: seq<PathNode>, selection: Selection)
    requires forall i :: 0 <= i < |s| ==> !Matches(s[i].feature, selection)
    ensures Kept(s, selection) == Untagged(s) && Raised(s, selection) == []
    ensures Highlighted(s, selection) == Untagged(s)
  {
    if s != [] {
      var p := s[..|s| - 1];
      HighlightWithoutMatchKeepsOrder(p, selection);
      assert s == p + [s[|s| - 1]];
      UntaggedConcat(p, [s[|s| - 1]]);
    }
  }

  lemma HighlightNoSelection(s: seq<PathNode>)
    ensures Highlighted(s, NoSelection) == Untagged(s)
  {
    HighlightWithoutMatchKeepsOrder(s, NoSelection);
  }

  lemma {:induction false} KeptConcat(a: seq<PathNode>, b: seq<PathNode>, selection: Selection)
    ensures Kept(a + b, selection) == Kept(a, selection) + Kept(b, selection)
    ensures Raised(a + b, selection) == Raised(a, selection) + Raised(b, selection)
  {
    if b == [] {
      assert a + b == a;
    } else {
      var q := b[..|b| - 1];
      assert (a + b)[..|a + b| - 1] == a + q;
      KeptConcat(a, q, selection);
    }
  }

  lemma {:induction false} KeptOfKept(s: seq<PathNode>, selection: Selection)
    requires AllKept(s, selection)
    ensures Kept(s, selection) == s && Raised(s, selection) == []
  {
    if s != [] {
      KeptOfKept(s[..|s| - 1], selection);
    }
  }

  lemma {:induction false} RaisedOfRaised(s: seq<PathNode>, selection: Selection)
    requires AllRaised(s, selection)
    ensures Raised(s, selection) == s && Kept(s, selection) == []
  {
    if s != [] {
      RaisedOfRaised(s[..|s| - 1], selection);
    }
  }

  /** Highlighting the same selection again changes nothing. */
  lemma HighlightIdempotent(s: seq<PathNode>, selection: Selection)
    ensures Highlighted(Highlighted(s, selection), selection) == Highlighted(s, selection)
  {
    var k, r := Kept(s, selection), Raised(s, selection);
    KeptAndRaisedTags(s, selection);
    KeptConcat(k, r, selection);
    KeptOfKept(k, selection);
    RaisedOfRaised(r, selection);
  }

  /** One step of the walk: the path at index `i` joins the kept or the raised ones. */
  lemma HighlightStep(s: seq<PathNode>, i: int, selection: Selection)
    requires 0 <= i < |s|
    ensures Kept(s[..i + 1], selection) ==
              Kept(s[..i], selection) + (if Matches(s[i].feature, selection) then [] else [s[i].(hover := false)])
    ensures Raised(s[..i + 1], selection) ==
              Raised(s[..i], selection) + (if Matches(s[i].feature, selection) then [s[i].(hover := true)] else [])
  {
    assert s[..i + 1][..i] == s[..i];
  }

  /**
   * The walk after `i` paths holds the kept ones, then the unvisited ones, then the raised
   * ones: the next path sits right after the kept ones.
   */
  lemma WalkNext(s: seq<PathNode>, i: int, selection: Selection, cur: seq<PathNode>)
    requires 0 <= i < |s| && cur == Kept(s[..i], selection) + s[i..] + Raised(s[..i], selection)
    ensures |Kept(s[..i], selection)| < |cur| && cur[|Kept(s[..i], selection)|] == s[i]
  {
    SplitAt(cur, Kept(s[..i], selection), s, i, Raised(s[..i], selection), s[i]);
  }

  /** A matching next path, tagged and moved to the end, joins the raised ones. */
  lemma WalkRaise(s: seq<PathNode>, i: int, selection: Selection, cur: seq<PathNode>)
    requires 0 <= i < |s| && cur == Kept(s[..i], selection) + s[i..] + Raised(s[..i], selection)
    requires Matches(s[i].feature, selection)
    ensures var pos := |Kept(s[..i], selection)|;
      && pos < |cur|
      && Kept(s[..i + 1], selection) == Kept(s[..i], selection)
      && var c := cur[pos := s[i].(hover := true)];
         c[..pos] + c[pos + 1..] + [c[pos]] == Kept(s[..i + 1], selection) + s[i + 1..] + Raised(s[..i + 1], selection)
  {
    var k, r := Kept(s[..i], selection), Raised(s[..i], selection);
    HighlightStep(s, i, selection);
    var t := s[i].(hover := true);
    SplitAt(cur, k, s, i, r, t);
    MovedToEnd(cur[|k| := t], k, t, s[i + 1..], r);
    assert Kept(s[..i + 1], selection) == k;
  }

  /** A non-matching next path, untagged where it is, joins the kept ones. */
  lemma WalkKeep(s: seq<PathNode>, i: int, selection: Selection, cur: seq<PathNode>)
    requires 0 <= i < |s| && cur == Kept(s[..i], selection) + s[i..] + Raised(s[..i], selection)
    requires !Matches(s[i].feature, selection)
    ensures var pos := |Kept(s[..i], selection)|;
      && pos < |cur|
      && |Kept(s[..i + 1], selection)| == pos + 1
      && cur[pos := s[i].(hover := false)] == Kept(s[..i + 1], selection) + s[i + 1..] + Raised(s[..i + 1], selection)
  {
    var k, r := Kept(s[..i], selection), Raised(s[..i], selection);
    HighlightStep(s, i, selection);
    var u := s[i].(hover := false);
    SplitAt(cur, k, s, i, r, u);
    assert Raised(s[..i + 1], selection) == r;
  }

  /** In `k + s[i..] + r`, the path after the kept prefix is `s[i]`, and replacing it replaces that one. */
  lemma SplitAt(cur: seq<PathNode>, k: seq<PathNode>, s: seq<PathNode>, i: int, r: seq<PathNode>, x: PathNode)
    requires 0 <= i < |s| && cur == k + s[i..] + r
    ensures |k| < |cur| && cur[|k|] == s[i]
    ensures cur[|k| := x] == k + [x] + s[i + 1..] + r
  {
    var lhs, rhs := cur[|k| := x], k + [x] + s[i + 1..] + r;
    assert |lhs| == |rhs|;
    forall j | 0 <= j < |lhs|
      ensures lhs[j] == rhs[j]
    {
      if |k| < j < |k| + |s| - i {
        assert rhs[j] == s[i + 1..][j - |k| - 1];
      }
    }
  }

  /** Moving the path after the kept prefix to the end puts it after the raised ones. */
  lemma MovedToEnd(cur: seq<PathNode>, k: seq<PathNode>, x: PathNode, rest: seq<PathNode>, r: seq<PathNode>)
    requires cur == k + [x] + rest + r
    ensures |k| < |cur|
    ensures cur[..|k|] + cur[|k| + 1..] + [cur[|k|]] == k + rest + (r + [x])
  {
    assert cur[..|k|] == k;
    assert cur[|k| + 1..] == rest + r;
  }

  /** `parentNode.appendChild(nodes[pos])`: the path at `pos` moves to the end, the ones after it move up. */
  method AppendChild(a: array<PathNode>, pos: nat)
    requires pos < a.Length
    modifies a
    ensures a[..] == old(a[..pos]) + old(a[pos + 1..]) + [old(a[pos])]
  {
    var node := a[pos];
    var k := pos;
    while k < a.Length - 1
      invariant pos <= k < a.Length
      invariant forall j :: 0 <= j < pos ==> a[j] == old(a[j])
      invariant forall j :: pos <= j < k ==> a[j] == old(a[j + 1])
      invariant forall j :: k < j < a.Length ==> a[j] == old(a[j])
    {
      a[k] := a[k + 1];
      k := k + 1;
    }
    a[a.Length - 1] := node;
  }

  /** The paths after the walk has visited `i` of the original ones: kept, unvisited, raised. */
  ghost function WalkLayout(s: seq<PathNode>, i: int, selection: Selection): seq<PathNode>
    requires 0 <= i <= |s|
  {
    Kept(s[..i], selection) + s[i..] + Raised(s[..i], selection)
  }

  /**
   * The `classed` callback for the next original path, which sits right after the kept
   * ones: set its class by whether it matches and, when it does, move it to the end.
   */
  method VisitNext(a: array<PathNode>, kept: nat, selection: Selection, ghost s: seq<PathNode>, ghost i: int)
    returns (kept': nat)
    requires 0 <= i < |s| && kept == |Kept(s[..i], selection)| && a[..] == WalkLayout(s, i, selection)
    modifies a
    ensures kept' == |Kept(s[..i + 1], selection)| && a[..] == WalkLayout(s, i + 1, selection)
  {
    ghost var cur := a[..];
    WalkNext(s, i, selection, cur);
    var node := a[kept];
    if Matches(node.feature, selection) {
      WalkRaise(s, i, selection, cur);
      a[kept] := node.(hover := true);
      AppendChild(a, kept);
      kept' := kept;
    } else {
      WalkKeep(s, i, selection, cur);
      a[kept] := node.(hover := false);
      kept' := kept + 1;
    }
  }

  /**
   * The body of `highlightRegionInMap`: walks the paths in their order at the call, tags
   * each one whether it matches, and moves each match to the end as it is met.
   */
  method HighlightPaths(a: array<PathNode>, selection: Selection)
    modifies a
    ensures a[..] == Highlighted(old(a[..]), selection)
  {
    ghost var s := a[..];
    var kept := 0;
    WalkEnds(s, selection);
    for i := 0 to a.Length
      invariant kept == |Kept(s[..i], selection)|
      invariant a[..] == WalkLayout(s, i, selection)
    {
      kept := VisitNext(a, kept, selection, s, i);
    }
  }

  /** Before the walk the layout is the original order; after it, the highlighted order. */
  lemma WalkEnds(s: seq<PathNode>, selection: Selection)
    ensures WalkLayout(s, 0, selection) == s
    ensures WalkLayout(s, |s|, selection) == Highlighted(s, selection)
  {
    assert s[..0] == [] && s[0..] == s;
    assert s[..|s|] == s && s[|s|..] == [];
  }

  /** The state of one mounted choropleth. */
  class ChoroplethMap {
    /** The explorer whose `setHoveredRegion` and `setSelectedRegion` it calls. */
    const explorer: Explorer
    /** The region paths of the map, in draw order. */
    var paths: array<PathNode>
    var onceTouchedRegion: Option<Feature>
    var svgRenderCount: nat

    /** The drawn paths always show the highlight of the current selection. */
    ghost predicate Valid()
      reads this`paths, paths, explorer
    {
      Highlighted(paths[..], explorer.selectedRegion) == paths[..]
    }

    constructor (explorer: Explorer)
      ensures this.explorer == explorer && fresh(paths) && paths.Length == 0
      ensures onceTouchedRegion == None && svgRenderCount == 0
      ensures Valid()
    {
      this.explorer := explorer;
      paths := new PathNode[0];
      onceTouchedRegion := None;
      svgRenderCount := 0;
    }

    /** `highlightRegionInMap(name)` on this map's paths. */
    method HighlightRegionInMap(selection: Selection)
      modifies paths
      ensures paths[..] == Highlighted(old(paths[..]), selection)
    {
      HighlightPaths(paths, selection);
    }

    /**
     * A render: clear the drawing and draw one path per feature, filled by its band,
     * with fresh handlers whose touch flag starts idle.
     */
    method Ready(features: seq<Feature>, mapData: map<string, int>)
      modifies this
      ensures fresh(paths) && paths[..] == DrawRegions(features, mapData)
      ensures onceTouchedRegion == None && svgRenderCount == old(svgRenderCount)
    {
      var drawn := DrawRegions(features, mapData);
      paths := new PathNode[|drawn|](i requires 0 <= i < |drawn| => drawn[i]);
      onceTouchedRegion := None;
    }

    /**
     * A topology load completing: applied only while the map is mounted, in which case it
     * renders, bumps the render counter and re-applies the current selection's highlight.
     */
    method ApplyLoadedTopology(features: seq<Feature>, mapData: map<string, int>, mounted: bool)
      requires Valid()
      modifies this, paths
      ensures Valid()
      ensures mounted ==> paths[..] == Highlighted(DrawRegions(features, mapData), explorer.selectedRegion)
      ensures mounted ==> fresh(paths) && onceTouchedRegion == None && svgRenderCount == old(svgRenderCount) + 1
      ensures !mounted ==> paths == old(paths) && unchanged(this) && unchanged(paths)
    {
      if mounted {
        Ready(features, mapData);
        svgRenderCount := svgRenderCount + 1;
        HighlightRegionInMap(explorer.selectedRegion);
        HighlightIdempotent(DrawRegions(features, mapData), explorer.selectedRegion);
      }
    }

    /** The selection effect: re-highlight when the selection has changed. */
    method SelectionChanged(previous: Selection)
      requires Highlighted(paths[..], previous) == paths[..]
      modifies paths
      ensures Valid()
      ensures explorer.selectedRegion != previous ==> paths[..] == Highlighted(old(paths[..]), explorer.selectedRegion)
      ensures explorer.selectedRegion == previous ==> paths[..] == old(paths[..])
    {
      if explorer.selectedRegion != previous {
        ghost var before := paths[..];
        HighlightRegionInMap(explorer.selectedRegion);
        HighlightIdempotent(before, explorer.selectedRegion);
      }
    }

    /**
     * `mouseover` on `d`: hover its name in the explorer, then select that name. When no
     * record has that ward, the hover ends in the page handler's exception, which the
     * `catch` swallows before the selection is made: the selection and the paths stay.
     */
    method OnMouseover(d: Feature)
      requires Valid()
      modifies explorer, paths
      ensures Valid()
      ensures FindWard(explorer.states, d.name).Some? ==> explorer.selectedRegion == Selected(d.name)
      ensures FindWard(explorer.states, d.name).None? ==> explorer.selectedRegion == old(explorer.selectedRegion)
      ensures explorer.currentHoveredRegion == explorer.panelRegion
                == GetRegionFromState(FindWard(explorer.states, d.name))
      ensures explorer.highlightChanges == old(explorer.highlightChanges) + [explorer.panelRegion]
      ensures explorer.currentMap == old(explorer.currentMap)
      ensures paths[..] == Highlighted(old(paths[..]), explorer.selectedRegion)
      ensures FindWard(explorer.states, d.name).None? ==> paths[..] == old(paths[..])
      ensures onceTouchedRegion == old(onceTouchedRegion)
    {
      var previous := explorer.selectedRegion;
      var threw := explorer.SetHoveredRegion(d.name);
      if !threw {
        explorer.SetSelectedRegion(Selected(d.name));
      }
      SelectionChanged(previous);
      if explorer.selectedRegion == previous {
        HighlightIdempotent(old(paths[..]), previous);
      }
    }

    /** `mouseleave` on `d`: clear the selection, and the touch flag if it is on `d`. */
    method OnMouseleave(d: Feature)
      requires Valid()
      modifies this, explorer`selectedRegion, paths
      ensures Valid()
      ensures explorer.selectedRegion == NoSelection
      ensures onceTouchedRegion == Mouseleave(old(onceTouchedRegion), d)
      ensures paths[..] == Untagged(old(paths[..]))
      ensures paths == old(paths) && svgRenderCount == old(svgRenderCount)
    {
      var previous := explorer.selectedRegion;
      explorer.SetSelectedRegion(NoSelection);
      if onceTouchedRegion == Some(d) {
        onceTouchedRegion := None;
      }
      SelectionChanged(previous);
      HighlightNoSelection(old(paths[..]));
      if previous == NoSelection {
        HighlightNoSelection(paths[..]);
      }
    }

    /** `touchstart` on `d`. */
    method OnTouchstart(d: Feature)
      modifies this`onceTouchedRegion
      ensures onceTouchedRegion == Touchstart(old(onceTouchedRegion), d)
    {
      if onceTouchedRegion == Some(d) {
        onceTouchedRegion := None;
      } else {
        onceTouchedRegion := Some(d);
      }
    }

    /** `click` on `d`: returns early while a touch is armed; in either case nothing changes. */
    method OnClick(d: Feature) returns (swallowed: bool)
      ensures swallowed <==> onceTouchedRegion.Some?
    {
      swallowed := onceTouchedRegion.Some?;
    }
  }
}
