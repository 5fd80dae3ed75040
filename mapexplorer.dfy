/**
 * The map explorer panel controller: ward records, the per-ward case statistic handed
 * to the choropleth, the record normaliser, the hover handler and the panel state.
 */
module MapExplorer {
  import opened Wrappers
  import opened JsSemantics

  const WardField := "Ward"
  const NameField := "name"
  const VeryCongestedField := "Number_of_Cases-_Very_Congested_Area"
  const MediumCongestedField := "Number_of_Cases-_Medium_Congested"
  const StandaloneField := "Number_of_Cases-_Standalone_Structure"
  /** The `Ward` value of the aggregate row of the ward sheet. */
  const TotalRow := "Total"

  /** One row of the ward sheet: its fields by name; an absent key reads as `undefined`. */
  datatype WardRecord = WardRecord(fields: map<string, string>)
  {
    function Field(key: string): Option<string>
    {
      if key in fields then Some(fields[key]) else None
    }
  }

  /** JavaScript truthiness of a string-or-undefined value. */
  predicate Truthy(v: Option<string>)
  {
    v.Some? && v.value != ""
  }

  /** The statistic object the aggregation returns alongside the per-ward values. */
  datatype Statistic = Statistic(total: int, maxConfirmed: int)

  datatype MapType = Country | State

  /** An entry of the map registry; `geoDataFile` is the file name under the maps directory. */
  datatype MapMeta = MapMeta(name: string, geoDataFile: string, mapType: MapType, graphObjectName: string)

  const MumbaiMap := MapMeta("Mumbai", "mumbai.json", Country, "export")
  const IndiaMap := MapMeta("India", "india.json", Country, "india")

  /** The registry of maps, by name. */
  const MapRegistry: map<string, MapMeta> := map["Mumbai" := MumbaiMap, "India" := IndiaMap]

  /**
   * `isNaN(parseInt(x)) ? 0 : parseInt(x)` for the field `key` of a record. A missing
   * field is `undefined`, and `parseInt(undefined)` is NaN (see `MissingFieldIsNaN`).
   */
  function CaseCount(r: WardRecord, key: string): int
  {
    if key !in r.fields then 0
    else
      match ParseInt(r.fields[key])
      case None => 0
      case Some(v) => v
  }

  /** `parseInt(undefined)` reads the string "undefined", which has no digit: NaN. */
  lemma MissingFieldIsNaN()
    ensures ParseInt(JsString(None)) == None
  {
    var u := JsString(None);
    assert u == "undefined" && NoDecimalDigit(u);
    ParseIntWithoutDigits(u);
  }

  /** A field holding a decimal number, with any white space before it and any non-digit text after it, counts that number. */
  lemma CaseCountOfDecimal(r: WardRecord, key: string, ws: string, n: int, rest: string)
    requires AllWhiteSpace(ws)
    requires rest == [] || !IsDecimalDigit(rest[0])
    requires n == 0 && rest != [] ==> rest[0] != 'x' && rest[0] != 'X'
    requires r.Field(key) == Some(ws + IntToDecimal(n) + rest)
    ensures CaseCount(r, key) == n
  {
    ParseIntOfDecimal(ws, n, rest);
  }

  /**
   * A field in which no digit follows the white space and the sign (such as "N/A 12", "-"
   * or "+ 3") is NaN to `parseInt`, so it counts 0.
   */
  lemma CaseCountWithoutNumber(r: WardRecord, key: string, ws: string, sg: Sign, u: string)
    requires AllWhiteSpace(ws) && FollowsSign(sg, u)
    requires if HasHexPrefix(u) then |u| == 2 || !IsRadixDigit(u[2], 16) else u == [] || !IsDecimalDigit(u[0])
    requires r.Field(key) == Some(ws + SignText(sg) + u)
    ensures CaseCount(r, key) == 0
  {
    ParseIntIsNaN(ws, sg, u);
  }

  /** The value the statistic map holds for a ward: the three case counts added up. */
  function WardSum(r: WardRecord): int
  {
    CaseCount(r, VeryCongestedField) + CaseCount(r, MediumCongestedField) + CaseCount(r, StandaloneField)
  }

  /** `state.Ward === 'Total'`. */
  predicate IsTotalRow(r: WardRecord)
  {
    r.Field(WardField) == Some(TotalRow)
  }

  /** The property key `acc[state.Ward]` writes: a missing `Ward` becomes the key "undefined". */
  function WardKey(r: WardRecord): string
  {
    JsString(r.Field(WardField))
  }

  /**
   * `acc[key] = n` on the plain-object accumulator: every key gets an own property holding
   * `n`, except `__proto__`, whose inherited setter ignores a number and creates nothing.
   */
  function AssignCount(acc: map<string, int>, key: string, n: int): map<string, int>
  {
    if key == ProtoKey then acc else acc[key := n]
  }

  /** The reduce over the records, from the first to the last: what the statistic map is after them. */
  function WardStatistic(states: seq<WardRecord>): map<string, int>
  {
    if states == [] then map[]
    else
      var acc := WardStatistic(states[..|states| - 1]);
      var r := states[|states| - 1];
      if IsTotalRow(r) then acc else AssignCount(acc, WardKey(r), WardSum(r))
  }

  /** Whether the reduce step for `r` leaves an entry: it is not the `Total` row and its key is not `__proto__`. */
  predicate WritesEntry(r: WardRecord)
  {
    !IsTotalRow(r) && WardKey(r) != ProtoKey
  }

  /** The keys of the statistic map are the wards of the records other than the `Total` row, `__proto__` aside. */
  lemma {:induction false} WardStatisticKeys(states: seq<WardRecord>)
    ensures WardStatistic(states).Keys == set i | 0 <= i < |states| && WritesEntry(states[i]) :: WardKey(states[i])
  {
    if states != [] {
      var p := states[..|states| - 1];
      WardStatisticKeys(p);
      var last := |states| - 1;
      assert forall i :: 0 <= i < |p| ==> p[i] == states[i];
      var lhs := set i | 0 <= i < |states| && WritesEntry(states[i]) :: WardKey(states[i]);
      var rhs := set i | 0 <= i < |p| && WritesEntry(p[i]) :: WardKey(p[i]);
      assert lhs == rhs + (if WritesEntry(states[last]) then {WardKey(states[last])} else {});
    }
  }

  /** No record, whatever its fields, puts the key "Total" or the key "__proto__" in the statistic map. */
  lemma WardStatisticExcludesTotal(states: seq<WardRecord>)
    ensures TotalRow !in WardStatistic(states)
    ensures ProtoKey !in WardStatistic(states)
  {
    WardStatisticKeys(states);
  }

  /**
   * The value under a ward's key is the sum of the last non-`Total` record with that key:
   * the reduce assigns in list order, so a later record overwrites an earlier one.
   */
  lemma {:induction false} WardStatisticLastWins(states: seq<WardRecord>, i: int)
    requires 0 <= i < |states| && WritesEntry(states[i])
    requires forall j :: i < j < |states| && WritesEntry(states[j]) ==> WardKey(states[j]) != WardKey(states[i])
    ensures WardKey(states[i]) in WardStatistic(states)
    ensures WardStatistic(states)[WardKey(states[i])] == WardSum(states[i])
  {
    if i < |states| - 1 {
      var p := states[..|states| - 1];
      assert p[i] == states[i];
      WardStatisticLastWins(p, i);
    }
  }

  lemma WardStatisticStep(states: seq<WardRecord>, i: int)
    requires 0 <= i < |states|
    ensures WardStatistic(states[..i + 1]) ==
              if IsTotalRow(states[i]) then WardStatistic(states[..i])
              else AssignCount(WardStatistic(states[..i]), WardKey(states[i]), WardSum(states[i]))
  {
    assert states[..i + 1][..i] == states[..i];
  }

  /**
   * The memoised aggregation: a reduce over the records that skips the `Total` row and
   * writes, for every other record, the sum of its three case counts under its ward.
   * The statistic object is created as zeroes and never touched.
   */
  method AggregateWards(states: seq<WardRecord>) returns (statistic: Statistic, mapData: map<string, int>)
    ensures statistic == Statistic(0, 0)
    ensures mapData == WardStatistic(states)
    ensures TotalRow !in mapData && ProtoKey !in mapData
    ensures mapData.Keys == set i | 0 <= i < |states| && WritesEntry(states[i]) :: WardKey(states[i])
  {
    statistic := Statistic(0, 0);
    mapData := map[];
    for i := 0 to |states|
      invariant mapData == WardStatistic(states[..i])
    {
      var state := states[i];
      WardStatisticStep(states, i);
      if !IsTotalRow(state) {
        var a := CaseCount(state, VeryCongestedField);
        var b := CaseCount(state, MediumCongestedField);
        var c := CaseCount(state, StandaloneField);
        var sum := a + b + c;
        assert sum == WardSum(state);
        mapData := AssignCount(mapData, WardKey(state), sum);
      }
    }
    assert states[..|states|] == states;
    WardStatisticKeys(states);
    WardStatisticExcludesTotal(states);
  }

  /**
   * `getRegionFromState`: `undefined` stays `undefined`; otherwise a copy of the record
   * with every field kept, whose `name` is set to its `Ward` when `name` is falsy. A
   * missing `Ward` then leaves `name` reading as `undefined`.
   */
  function GetRegionFromState(state: Option<WardRecord>): (region: Option<WardRecord>)
    ensures region.None? <==> state.None?
    ensures region.Some? ==> forall k :: k != NameField ==> region.value.Field(k) == state.value.Field(k)
    ensures region.Some? && Truthy(state.value.Field(NameField)) ==>
              region.value.Field(NameField) == state.value.Field(NameField)
    ensures region.Some? && !Truthy(state.value.Field(NameField)) ==>
              region.value.Field(NameField) == state.value.Field(WardField)
  {
    match state
    case None => None
    case Some(r) =>
      if Truthy(r.Field(NameField)) then Some(r)
      else if WardField in r.fields then Some(WardRecord(r.fields[NameField := r.fields[WardField]]))
      else Some(WardRecord(r.fields - {NameField}))
  }

  /** Normalising a record twice gives what normalising it once gives. */
  lemma GetRegionFromStateIdempotent(state: Option<WardRecord>)
    ensures GetRegionFromState(GetRegionFromState(state)) == GetRegionFromState(state)
  {
    match state
    case None =>
    case Some(r) =>
      var once := GetRegionFromState(state).value;
      var twice := GetRegionFromState(Some(once)).value;
      assert forall k :: k in twice.fields <==> k in once.fields;
      assert forall k :: k in twice.fields ==> twice.fields[k] == once.fields[k];
      assert twice.fields == once.fields;
  }

  /**
   * The index `Array.prototype.find` stops at when looking for the ward `name`:
   * the first record whose `Ward` equals it, or the length of the list when none does.
   */
  function FirstWardIndex(states: seq<WardRecord>, name: Option<string>): (i: nat)
    ensures i <= |states|
    ensures forall j :: 0 <= j < i ==> states[j].Field(WardField) != name
    ensures i < |states| ==> states[i].Field(WardField) == name
  {
    if states == [] then 0
    else if states[0].Field(WardField) == name then 0
    else 1 + FirstWardIndex(states[1..], name)
  }

  /** `states.find((state) => name === state.Ward)`. */
  function FindWard(states: seq<WardRecord>, name: Option<string>): (found: Option<WardRecord>)
    ensures found.None? <==> forall j :: 0 <= j < |states| ==> states[j].Field(WardField) != name
    ensures found.Some? ==> found.value.Field(WardField) == name
    ensures found.Some? ==> FirstWardIndex(states, name) < |states| && found.value == states[FirstWardIndex(states, name)]
  {
    var i := FirstWardIndex(states, name);
    if i < |states| then Some(states[i]) else None
  }

  /**
   * The absence of a selection: the initial `{}` and the `null` a mouse leave writes.
   * Neither is equal to any region name, so both leave every region unhighlighted.
   */
  datatype Selection = NoSelection | Selected(name: Option<string>)

  /** The state of one mounted map explorer. */
  class Explorer {
    /** The ward records it was given. */
    const states: seq<WardRecord>
    var selectedRegion: Selection
    var panelRegion: Option<WardRecord>
    var currentHoveredRegion: Option<WardRecord>
    var currentMap: MapMeta
    /** Every value passed to `onMapHighlightChange`, oldest first. */
    var highlightChanges: seq<Option<WardRecord>>

    /** The initial state: nothing selected, panel and hover on the first record, the Mumbai map. */
    constructor (states: seq<WardRecord>)
      ensures this.states == states
      ensures selectedRegion == NoSelection
      ensures panelRegion == currentHoveredRegion == GetRegionFromState(if states == [] then None else Some(states[0]))
      ensures currentMap == MumbaiMap == MapRegistry["Mumbai"]
      ensures highlightChanges == []
    {
      this.states := states;
      var first := GetRegionFromState(if states == [] then None else Some(states[0]));
      selectedRegion := NoSelection;
      panelRegion := first;
      currentHoveredRegion := first;
      currentMap := MumbaiMap;
      highlightChanges := [];
    }

    /**
     * `setHoveredRegion(name)`: the first record of that ward, normalised, becomes both the
     * hovered and the panel region and is forwarded to `onMapHighlightChange`; with no such
     * record all three receive `undefined`. The page's handler destructures its argument
     * (src/components/home.js:82), so it throws on `undefined`: `handlerThrew` says that
     * the call ends in that exception, which propagates to the caller.
     */
    method SetHoveredRegion(name: Option<string>) returns (handlerThrew: bool)
      modifies this
      ensures currentHoveredRegion == panelRegion == GetRegionFromState(FindWard(states, name))
      ensures highlightChanges == old(highlightChanges) + [currentHoveredRegion]
      ensures handlerThrew <==> FindWard(states, name).None?
      ensures selectedRegion == old(selectedRegion) && currentMap == old(currentMap)
    {
      var region := GetRegionFromState(FindWard(states, name));
      currentHoveredRegion := region;
      panelRegion := region;
      highlightChanges := highlightChanges + [region];
      handlerThrew := region.None?;
    }

    method SetSelectedRegion(selection: Selection)
      modifies this`selectedRegion
      ensures selectedRegion == selection
    {
      selectedRegion := selection;
    }

    /** The map switch is disabled: whatever the name, nothing changes. */
    method SwitchMapToState(name: string)
      ensures unchanged(this)
    {
    }

    /** The memoised statistic and per-ward values for the current records. */
    method MapData() returns (statistic: Statistic, mapData: map<string, int>)
      ensures statistic == Statistic(0, 0) && mapData == WardStatistic(states)
    {
      statistic, mapData := AggregateWards(states);
    }
  }

  /** A hovered ward that has a record is shown in the panel, carrying that ward. */
  lemma HoverShowsWard(states: seq<WardRecord>, ward: string)
    requires exists j :: 0 <= j < |states| && states[j].Field(WardField) == Some(ward)
    ensures GetRegionFromState(FindWard(states, Some(ward))).Some?
    ensures GetRegionFromState(FindWard(states, Some(ward))).value.Field(WardField) == Some(ward)
  {
  }
}
