/**
 * `groupFilteredPlacesByType`: every row is normalised, its instance URLs are
 * reduced to Q-ids, and the place is appended to every map-marker category
 * whose Q-id list shares an id with them; a place no category takes yields
 * one warning instead.
 */
module Classifier {
  import opened Text
  import opened Places

  /** A map-marker category: its name and the Q-ids of the instances it takes. */
  datatype Category = Category(name: string, qids: seq<string>)

  /** `PLACE_GROUPS_IDS`, in the order of its keys. */
  const PlaceGroupsIds: seq<Category> := [
    Category("events", []),
    Category("extPolicePrisons", ["Q108047650", "Q108048094"]),
    Category("fieldOffices", ["Q108047541", "Q108047989", "Q108047676", "Q108047833", "Q108047775"]),
    Category("laborEducationCamps", ["Q277565"]),
    Category("memorials", []),
    Category("prisons", ["Q40357"]),
    Category("statePoliceHeadquarters", ["Q108047581"]),
    Category("statePoliceOffices", ["Q108048310", "Q2101520", "Q108047567"])
  ]

  /** The prefix stripped from every instance URL. */
  const EntityPrefix: string := "http://www.wikidata.org/entity/"

  /** The context of the warning logged for a place no category takes. */
  datatype Warning = Warning(instanceQIds: string, placeQId: string)

  function CategoryNames(table: seq<Category>): set<string> {
    set j | 0 <= j < |table| :: table[j].name
  }

  /** Category names are keys of one PHP array, so no two are equal. */
  predicate DistinctNames(table: seq<Category>) {
    forall a, b :: 0 <= a < b < |table| ==> table[a].name != table[b].name
  }

  lemma PlaceGroupsIdsShape()
    ensures DistinctNames(PlaceGroupsIds)
    ensures CategoryNames(PlaceGroupsIds)
         == {"events", "extPolicePrisons", "fieldOffices", "laborEducationCamps",
             "memorials", "prisons", "statePoliceHeadquarters", "statePoliceOffices"}
  {
    var names := CategoryNames(PlaceGroupsIds);
    assert PlaceGroupsIds[0].name == "events";
    assert PlaceGroupsIds[1].name == "extPolicePrisons";
    assert PlaceGroupsIds[2].name == "fieldOffices";
    assert PlaceGroupsIds[3].name == "laborEducationCamps";
    assert PlaceGroupsIds[4].name == "memorials";
    assert PlaceGroupsIds[5].name == "prisons";
    assert PlaceGroupsIds[6].name == "statePoliceHeadquarters";
    assert PlaceGroupsIds[7].name == "statePoliceOffices";
  }

  // ---------------------------------------------------------------------------
  // Instance ids of a place
  // ---------------------------------------------------------------------------

  /** The raw `instanceUrls` value of a row. */
  function InstanceUrls(row: RawBinding): string
    requires WellFormedRow(row)
  {
    row[InstanceUrlsKey][ValueKey]
  }

  /**
   * Lines 238-239: strip every entity prefix, then split on `|`. The pieces
   * are `|`-free and joined back by `|` they give the stripped string.
   */
  function InstanceQIds(instanceUrls: string): (r: seq<string>)
    ensures |r| >= 1
    ensures forall k :: 0 <= k < |r| ==> '|' !in r[k]
    ensures Join(r, '|') == StripAll(instanceUrls, EntityPrefix)
  {
    JoinSplit(StripAll(instanceUrls, EntityPrefix), '|');
    Split(StripAll(instanceUrls, EntityPrefix), '|')
  }

  /** The reverse direction: the entity URLs of some Q-ids, joined by `|`. */
  function EntityUrls(qids: seq<string>): string
    requires |qids| >= 1
  {
    Join(seq(|qids|, i requires 0 <= i < |qids| => EntityPrefix + qids[i]), '|')
  }

  /** Plain Q-ids: no `|`, and no entity prefix inside. */
  predicate PlainQIds(qids: seq<string>) {
    forall i :: 0 <= i < |qids| ==> '|' !in qids[i] && !Contains(qids[i], EntityPrefix)
  }

  lemma {:induction false} StripEntityUrls(qids: seq<string>)
    requires |qids| >= 1 && PlainQIds(qids)
    ensures StripAll(EntityUrls(qids), EntityPrefix) == Join(qids, '|')
    decreases |qids|
  {
    var urls := seq(|qids|, i requires 0 <= i < |qids| => EntityPrefix + qids[i]);
    assert (EntityPrefix + qids[0])[|EntityPrefix|..] == qids[0];
    StripAllAbsent(qids[0], EntityPrefix);
    assert StripAll(urls[0], EntityPrefix) == qids[0];
    if |qids| > 1 {
      var tail := seq(|qids| - 1, i requires 0 <= i < |qids| - 1 => EntityPrefix + qids[1..][i]);
      assert urls[1..] == tail;
      StripEntityUrls(qids[1..]);
      assert '|' !in EntityPrefix;
      StripAllAround(urls[0], '|', Join(urls[1..], '|'), EntityPrefix);
    }
  }

  /** Stripping and splitting recovers the Q-ids of well-formed entity URLs. */
  lemma InstanceQIdsOfEntityUrls(qids: seq<string>)
    requires |qids| >= 1 && PlainQIds(qids)
    ensures InstanceQIds(EntityUrls(qids)) == qids
  {
    StripEntityUrls(qids);
    SplitJoin(qids, '|');
  }

  // ---------------------------------------------------------------------------
  // Matching a category
  // ---------------------------------------------------------------------------

  /** `array_intersect($a, $b)`: the elements of `a` that occur in `b`, in the order of `a`. */
  function ArrayIntersect(a: seq<string>, b: seq<string>): (r: seq<string>)
    ensures forall k :: 0 <= k < |r| ==> r[k] in a && r[k] in b
    ensures forall x :: x in a && x in b ==> x in r
    ensures r == [] <==> forall k :: 0 <= k < |a| ==> a[k] !in b
  {
    if a == [] then []
    else (if a[0] in b then [a[0]] else []) + ArrayIntersect(a[1..], b)
  }

  /** Line 244: some of the instance ids are among the category's ids. */
  predicate Matches(instanceQIds: seq<string>, c: Category) {
    |ArrayIntersect(instanceQIds, c.qids)| > 0
  }

  /** A row's instances match a category exactly when they share a Q-id with it. */
  lemma MatchesShared(instanceQIds: seq<string>, c: Category)
    ensures Matches(instanceQIds, c) <==> exists k :: 0 <= k < |instanceQIds| && instanceQIds[k] in c.qids
  {
    if Matches(instanceQIds, c) {
      var r := ArrayIntersect(instanceQIds, c.qids);
      assert r[0] in instanceQIds;
    }
  }

  /** A row matches a category through the Q-ids of its instance URLs. */
  predicate Hits(c: Category, row: RawBinding)
    requires WellFormedRow(row)
  {
    Matches(InstanceQIds(InstanceUrls(row)), c)
  }

  /** No category of the table takes the row. */
  predicate Unmatched(table: seq<Category>, row: RawBinding)
    requires WellFormedRow(row)
  {
    forall j :: 0 <= j < |table| ==> !Hits(table[j], row)
  }

  /** The warning logged for a row: its raw instance URLs and its item. */
  function WarningOf(row: RawBinding): Warning
    requires WellFormedRow(row)
  {
    Warning(InstanceUrls(row), row[ItemKey][ValueKey])
  }

  predicate AllWellFormed(places: seq<RawBinding>) {
    forall i :: 0 <= i < |places| ==> WellFormedRow(places[i])
  }

  // ---------------------------------------------------------------------------
  // What the loops build
  // ---------------------------------------------------------------------------

  /** The elements of `xs` whose flag is set, in order. */
  function Keep<T>(xs: seq<T>, flags: seq<bool>): (r: seq<T>)
    requires |xs| == |flags|
    ensures |r| <= |xs|
  {
    if xs == [] then []
    else
      var n := |xs| - 1;
      Keep(xs[..n], flags[..n]) + (if flags[n] then [xs[n]] else [])
  }

  /** One more element is kept exactly when it is flagged. */
  lemma KeepSnoc<T>(xs: seq<T>, flags: seq<bool>, x: T, f: bool)
    requires |xs| == |flags|
    ensures Keep(xs + [x], flags + [f]) == Keep(xs, flags) + (if f then [x] else [])
  {
    assert (xs + [x])[..|xs|] == xs;
    assert (flags + [f])[..|flags|] == flags;
  }

  /** Nothing is kept when no flag is set. */
  lemma {:induction false} KeepNone<T>(xs: seq<T>, flags: seq<bool>)
    requires |xs| == |flags|
    requires forall i :: 0 <= i < |flags| ==> !flags[i]
    ensures Keep(xs, flags) == []
    decreases |xs|
  {
    if xs != [] {
      KeepNone(xs[..|xs| - 1], flags[..|xs| - 1]);
    }
  }

  /** The positions at which `flags` holds, in increasing order. */
  function Positions(flags: seq<bool>): (r: seq<nat>)
    ensures forall k :: 0 <= k < |r| ==> r[k] < |flags| && flags[r[k]]
    ensures forall k, l :: 0 <= k < l < |r| ==> r[k] < r[l]
    ensures forall i :: 0 <= i < |flags| && flags[i] ==> i in r
  {
    if flags == [] then []
    else
      var n := |flags| - 1;
      Positions(flags[..n]) + (if flags[n] then [n] else [])
  }

  /** The kept elements are those at the flagged positions, in that order. */
  lemma {:induction false} KeepPositions<T>(xs: seq<T>, flags: seq<bool>)
    requires |xs| == |flags|
    ensures var idx := Positions(flags);
            && |Keep(xs, flags)| == |idx|
            && forall k :: 0 <= k < |idx| ==> Keep(xs, flags)[k] == xs[idx[k]]
    decreases |xs|
  {
    if xs != [] {
      var n := |xs| - 1;
      KeepPositions(xs[..n], flags[..n]);
      var idx', kept' := Positions(flags[..n]), Keep(xs[..n], flags[..n]);
      var idx, kept := Positions(flags), Keep(xs, flags);
      assert idx == idx' + (if flags[n] then [n] else []);
      assert kept == kept' + (if flags[n] then [xs[n]] else []);
      forall k | 0 <= k < |idx|
        ensures kept[k] == xs[idx[k]]
      {
        if k < |idx'| {
          assert kept[k] == kept'[k] && idx[k] == idx'[k] < n;
        }
      }
    }
  }

  /** Every row, normalised. */
  function NormalizedRows(places: seq<RawBinding>): (r: seq<Place>)
    requires AllWellFormed(places)
    ensures |r| == |places|
  {
    seq(|places|, i requires 0 <= i < |places| => Normalized(places[i]))
  }

  /** The warning each row would draw. */
  function RowWarnings(places: seq<RawBinding>): (r: seq<Warning>)
    requires AllWellFormed(places)
    ensures |r| == |places|
  {
    seq(|places|, i requires 0 <= i < |places| => WarningOf(places[i]))
  }

  /** Which rows a category takes. */
  function HitFlags(c: Category, places: seq<RawBinding>): (r: seq<bool>)
    requires AllWellFormed(places)
    ensures |r| == |places|
  {
    seq(|places|, i requires 0 <= i < |places| => Hits(c, places[i]))
  }

  /** Which rows no category of the table takes. */
  function MissFlags(table: seq<Category>, places: seq<RawBinding>): (r: seq<bool>)
    requires AllWellFormed(places)
    ensures |r| == |places|
  {
    seq(|places|, i requires 0 <= i < |places| => Unmatched(table, places[i]))
  }

  /**
   * What a category holds after the rows, built as the loop builds it: the
   * category after all rows but the last, plus the last normalised row when
   * the category takes it.
   */
  function Group(c: Category, places: seq<RawBinding>): seq<Place>
    requires AllWellFormed(places)
    decreases |places|
  {
    if places == [] then []
    else
      var n := |places| - 1;
      assert AllWellFormed(places[..n]);
      Group(c, places[..n]) + (if Hits(c, places[n]) then [Normalized(places[n])] else [])
  }

  /** The warnings logged for the rows, built as the loop builds them. */
  function Warnings(table: seq<Category>, places: seq<RawBinding>): seq<Warning>
    requires AllWellFormed(places)
    decreases |places|
  {
    if places == [] then []
    else
      var n := |places| - 1;
      assert AllWellFormed(places[..n]);
      Warnings(table, places[..n]) + (if Unmatched(table, places[n]) then [WarningOf(places[n])] else [])
  }

  /** The normalised rows of a longer prefix extend those of the shorter one by the next row. */
  lemma NormalizedRowsSnoc(places: seq<RawBinding>, i: nat)
    requires AllWellFormed(places) && i < |places|
    ensures AllWellFormed(places[..i]) && AllWellFormed(places[..i + 1])
    ensures NormalizedRows(places[..i + 1]) == NormalizedRows(places[..i]) + [Normalized(places[i])]
  {
    var lhs := NormalizedRows(places[..i + 1]);
    var rhs := NormalizedRows(places[..i]);
    forall k | 0 <= k < i
      ensures lhs[k] == rhs[k]
    {
      assert places[..i + 1][k] == places[..i][k] == places[k];
    }
    assert places[..i + 1][i] == places[i];
    SnocOf(lhs, rhs, Normalized(places[i]));
  }

  /** The warnings of a longer prefix extend those of the shorter one by the next row's. */
  lemma RowWarningsSnoc(places: seq<RawBinding>, i: nat)
    requires AllWellFormed(places) && i < |places|
    ensures AllWellFormed(places[..i]) && AllWellFormed(places[..i + 1])
    ensures RowWarnings(places[..i + 1]) == RowWarnings(places[..i]) + [WarningOf(places[i])]
  {
    var lhs := RowWarnings(places[..i + 1]);
    var rhs := RowWarnings(places[..i]);
    forall k | 0 <= k < i
      ensures lhs[k] == rhs[k]
    {
      assert places[..i + 1][k] == places[..i][k] == places[k];
    }
    assert places[..i + 1][i] == places[i];
    SnocOf(lhs, rhs, WarningOf(places[i]));
  }

  lemma HitFlagsSnoc(c: Category, places: seq<RawBinding>, i: nat)
    requires AllWellFormed(places) && i < |places|
    ensures AllWellFormed(places[..i]) && AllWellFormed(places[..i + 1])
    ensures HitFlags(c, places[..i + 1]) == HitFlags(c, places[..i]) + [Hits(c, places[i])]
  {
    var lhs := HitFlags(c, places[..i + 1]);
    var rhs := HitFlags(c, places[..i]);
    forall k | 0 <= k < i
      ensures lhs[k] == rhs[k]
    {
      assert places[..i + 1][k] == places[..i][k] == places[k];
    }
    assert places[..i + 1][i] == places[i];
    SnocOf(lhs, rhs, Hits(c, places[i]));
  }

  lemma MissFlagsSnoc(table: seq<Category>, places: seq<RawBinding>, i: nat)
    requires AllWellFormed(places) && i < |places|
    ensures AllWellFormed(places[..i]) && AllWellFormed(places[..i + 1])
    ensures MissFlags(table, places[..i + 1]) == MissFlags(table, places[..i]) + [Unmatched(table, places[i])]
  {
    var lhs := MissFlags(table, places[..i + 1]);
    var rhs := MissFlags(table, places[..i]);
    forall k | 0 <= k < i
      ensures lhs[k] == rhs[k]
    {
      MissFlagAt(table, places, i, k);
    }
    MissFlagAt(table, places, i, i);
    SnocOf(lhs, rhs, Unmatched(table, places[i]));
  }

  /** A sequence that agrees with `xs` and then ends in `x` is `xs + [x]`. */
  lemma SnocOf<T>(ys: seq<T>, xs: seq<T>, x: T)
    requires |ys| == |xs| + 1
    requires forall k :: 0 <= k < |xs| ==> ys[k] == xs[k]
    requires ys[|xs|] == x
    ensures ys == xs + [x]
  {
  }

  lemma MissFlagAt(table: seq<Category>, places: seq<RawBinding>, i: nat, k: nat)
    requires AllWellFormed(places) && k <= i < |places|
    ensures AllWellFormed(places[..i]) && AllWellFormed(places[..i + 1])
    ensures MissFlags(table, places[..i + 1])[k] == Unmatched(table, places[k])
    ensures k < i ==> MissFlags(table, places[..i])[k] == Unmatched(table, places[k])
  {
    assert places[..i + 1][k] == places[k];
    assert k < i ==> places[..i][k] == places[k];
  }

  /** Processing one more row appends it to a category exactly when it matches. */
  lemma GroupStep(c: Category, places: seq<RawBinding>, i: nat)
    requires AllWellFormed(places) && i < |places|
    ensures AllWellFormed(places[..i]) && AllWellFormed(places[..i + 1])
    ensures Group(c, places[..i + 1])
         == Group(c, places[..i]) + (if Hits(c, places[i]) then [Normalized(places[i])] else [])
  {
    assert places[..i + 1][..i] == places[..i];
    assert places[..i + 1][i] == places[i];
  }

  /**
   * Reference definition: a category holds the normalised rows filtered by
   * its hit flags.
   */
  lemma {:induction false} GroupKeeps(c: Category, places: seq<RawBinding>)
    requires AllWellFormed(places)
    ensures Group(c, places) == Keep(NormalizedRows(places), HitFlags(c, places))
    decreases |places|
  {
    if places != [] {
      var n := |places| - 1;
      assert places[..n + 1] == places;
      GroupKeeps(c, places[..n]);
      NormalizedRowsSnoc(places, n);
      HitFlagsSnoc(c, places, n);
      KeepSnoc(NormalizedRows(places[..n]), HitFlags(c, places[..n]), Normalized(places[n]), Hits(c, places[n]));
    }
  }

  /** Category by category, the groups after one more row are those of the longer prefix. */
  lemma GroupsAfterRow(table: seq<Category>, places: seq<RawBinding>, i: nat,
                       before: map<string, seq<Place>>, after: map<string, seq<Place>>)
    requires AllWellFormed(places) && i < |places|
    requires forall j :: 0 <= j < |table| ==> table[j].name in before && before[table[j].name] == Group(table[j], places[..i])
    requires forall j :: 0 <= j < |table| ==> (table[j].name in after &&
               after[table[j].name] == before[table[j].name]
                 + (if Matches(InstanceQIds(InstanceUrls(places[i])), table[j]) then [Normalized(places[i])] else []))
    ensures forall j :: 0 <= j < |table| ==> after[table[j].name] == Group(table[j], places[..i + 1])
  {
    forall j | 0 <= j < |table|
      ensures after[table[j].name] == Group(table[j], places[..i + 1])
    {
      GroupStep(table[j], places, i);
    }
  }

  /** Processing one more row logs a warning exactly when no category takes it. */
  lemma WarningsStep(table: seq<Category>, places: seq<RawBinding>, i: nat)
    requires AllWellFormed(places) && i < |places|
    ensures AllWellFormed(places[..i]) && AllWellFormed(places[..i + 1])
    ensures Warnings(table, places[..i + 1])
         == Warnings(table, places[..i]) + (if Unmatched(table, places[i]) then [WarningOf(places[i])] else [])
  {
    assert places[..i + 1][..i] == places[..i];
    assert places[..i + 1][i] == places[i];
  }

  /** Reference definition: the warnings are the rows' warnings filtered by the miss flags. */
  lemma {:induction false} WarningsKeep(table: seq<Category>, places: seq<RawBinding>)
    requires AllWellFormed(places)
    ensures Warnings(table, places) == Keep(RowWarnings(places), MissFlags(table, places))
    decreases |places|
  {
    if places != [] {
      var n := |places| - 1;
      assert places[..n + 1] == places;
      WarningsKeep(table, places[..n]);
      RowWarningsSnoc(places, n);
      MissFlagsSnoc(table, places, n);
      KeepSnoc(RowWarnings(places[..n]), MissFlags(table, places[..n]), WarningOf(places[n]), Unmatched(table, places[n]));
    }
  }

  /** The warnings after one more row, given whether some category matched it. */
  lemma WarningsAfterRow(table: seq<Category>, places: seq<RawBinding>, i: nat, found: bool)
    requires AllWellFormed(places) && i < |places|
    requires found <==> exists j :: 0 <= j < |table| && Matches(InstanceQIds(InstanceUrls(places[i])), table[j])
    ensures AllWellFormed(places[..i]) && AllWellFormed(places[..i + 1])
    ensures Warnings(table, places[..i + 1])
         == Warnings(table, places[..i]) + (if found then [] else [WarningOf(places[i])])
  {
    WarningsStep(table, places, i);
    if found {
      var j :| 0 <= j < |table| && Matches(InstanceQIds(InstanceUrls(places[i])), table[j]);
      assert Hits(table[j], places[i]);
    }
  }

  /**
   * Membership and order: a category holds, in input order and once each,
   * the normalised rows at exactly the positions whose instances it matches.
   */
  lemma GroupMembers(c: Category, places: seq<RawBinding>)
    requires AllWellFormed(places)
    ensures var idx := Positions(HitFlags(c, places));
            && |Group(c, places)| == |idx|
            && (forall k :: 0 <= k < |idx| ==> idx[k] < |places| && Group(c, places)[k] == Normalized(places[idx[k]]))
            && (forall k, l :: 0 <= k < l < |idx| ==> idx[k] < idx[l])
            && (forall i :: 0 <= i < |places| ==> (i in idx <==> Hits(c, places[i])))
  {
    var flags := HitFlags(c, places);
    GroupKeeps(c, places);
    KeepPositions(NormalizedRows(places), flags);
    forall i | 0 <= i < |places|
      ensures i in Positions(flags) <==> Hits(c, places[i])
    {
      assert flags[i] == Hits(c, places[i]);
    }
  }

  /**
   * Unmatched policy: exactly one warning per row no category takes,
   * carrying its raw instance URLs and its item, in input order; a row is
   * warned about exactly when it is in no category's group.
   */
  lemma WarningsExact(table: seq<Category>, places: seq<RawBinding>)
    requires AllWellFormed(places)
    ensures var idx := Positions(MissFlags(table, places));
            && |Warnings(table, places)| == |idx|
            && (forall k :: 0 <= k < |idx| ==> idx[k] < |places| && Warnings(table, places)[k] == WarningOf(places[idx[k]]))
            && (forall k, l :: 0 <= k < l < |idx| ==> idx[k] < idx[l])
            && (forall i :: 0 <= i < |places| ==>
                  (i in idx <==> forall j :: 0 <= j < |table| ==> i !in Positions(HitFlags(table[j], places))))
  {
    WarningsKeep(table, places);
    KeepPositions(RowWarnings(places), MissFlags(table, places));
    forall i | 0 <= i < |places|
      ensures (i in Positions(MissFlags(table, places)))
              <==> forall j :: 0 <= j < |table| ==> i !in Positions(HitFlags(table[j], places))
    {
      assert MissFlags(table, places)[i] == Unmatched(table, places[i]);
      forall j | 0 <= j < |table|
        ensures (i in Positions(HitFlags(table[j], places))) == Hits(table[j], places[i])
      {
        GroupMembers(table[j], places);
      }
    }
  }

  /** A category with no Q-ids (`events`, `memorials`) never receives a place. */
  lemma EmptyCategoryStaysEmpty(c: Category, places: seq<RawBinding>)
    requires AllWellFormed(places)
    requires c.qids == []
    ensures Group(c, places) == []
  {
    var flags := HitFlags(c, places);
    forall i | 0 <= i < |places|
      ensures !flags[i]
    {
      var instanceQIds := InstanceQIds(InstanceUrls(places[i]));
      assert forall k :: 0 <= k < |instanceQIds| ==> instanceQIds[k] !in c.qids;
    }
    GroupKeeps(c, places);
    KeepNone(NormalizedRows(places), flags);
  }

  // ---------------------------------------------------------------------------
  // groupFilteredPlacesByType
  // ---------------------------------------------------------------------------

  /**
   * Lines 243-248: appends the place to every category its instance ids
   * match, and reports whether there was one.
   */
  method AddToGroups(table: seq<Category>, grouped: map<string, seq<Place>>, instanceQIds: seq<string>, place: Place)
    returns (updated: map<string, seq<Place>>, found: bool)
    requires DistinctNames(table)
    requires grouped.Keys == CategoryNames(table)
    ensures updated.Keys == grouped.Keys
    ensures forall j :: 0 <= j < |table| ==>
              updated[table[j].name] == grouped[table[j].name] + (if Matches(instanceQIds, table[j]) then [place] else [])
    ensures found <==> exists j :: 0 <= j < |table| && Matches(instanceQIds, table[j])
  {
    NamesAreKeys(table, grouped);
    updated := grouped;
    found := false;
    for j := 0 to |table|
      invariant updated.Keys == grouped.Keys
      invariant forall m :: 0 <= m < |table| ==>
                  updated[table[m].name] == grouped[table[m].name] + (if m < j && Matches(instanceQIds, table[m]) then [place] else [])
      invariant found <==> exists m :: 0 <= m < j && Matches(instanceQIds, table[m])
    {
      if Matches(instanceQIds, table[j]) {
        ghost var before := updated;
        updated := updated[table[j].name := updated[table[j].name] + [place]];
        AppendFrame(table, j, before, updated, place);
        found := true;
      }
    }
  }

  /** Every category name is a key of a map keyed by exactly the names. */
  lemma NamesAreKeys(table: seq<Category>, grouped: map<string, seq<Place>>)
    requires grouped.Keys == CategoryNames(table)
    ensures forall m :: 0 <= m < |table| ==> table[m].name in grouped
  {
    forall m | 0 <= m < |table|
      ensures table[m].name in grouped
    {
      assert table[m].name in CategoryNames(table);
    }
  }

  /** Appending to one category's entry leaves every other category's entry as it was. */
  lemma AppendFrame(table: seq<Category>, j: nat, before: map<string, seq<Place>>, after: map<string, seq<Place>>, place: Place)
    requires DistinctNames(table) && j < |table| && table[j].name in before
    requires after == before[table[j].name := before[table[j].name] + [place]]
    ensures after.Keys == before.Keys
    ensures after[table[j].name] == before[table[j].name] + [place]
    ensures forall m :: 0 <= m < |table| && m != j && table[m].name in before ==> after[table[m].name] == before[table[m].name]
  {
    forall m | 0 <= m < |table| && m != j && table[m].name in before
      ensures after[table[m].name] == before[table[m].name]
    {
      assert table[m].name != table[j].name;
    }
  }

  /** Line 235: `convertPlaceData(filterPlaceData($place))`. */
  method NormalizePlace(place: RawBinding) returns (updatedPlace: Place)
    requires WellFormedRow(place)
    ensures updatedPlace == Normalized(place)
  {
    var filtered := FilterPlaceData(place);
    updatedPlace := ConvertPlaceData(filtered);
  }

  /**
   * Lines 232-259 over a category table: starts every category empty, then
   * for each row in order normalises it, appends it to every category it
   * matches, and logs a warning when it matched none.
   */
  method GroupPlaces(table: seq<Category>, places: seq<RawBinding>) returns (grouped: map<string, seq<Place>>, warnings: seq<Warning>)
    requires DistinctNames(table)
    requires AllWellFormed(places)
    ensures grouped.Keys == CategoryNames(table)
    ensures forall j :: 0 <= j < |table| ==> grouped[table[j].name] == Group(table[j], places)
    ensures warnings == Warnings(table, places)
  {
    grouped := map name | name in CategoryNames(table) :: [];
    warnings := [];
    for i := 0 to |places|
      invariant grouped.Keys == CategoryNames(table)
      invariant forall j :: 0 <= j < |table| ==> grouped[table[j].name] == Group(table[j], places[..i])
      invariant warnings == Warnings(table, places[..i])
    {
      var place := places[i];
      var updatedPlace := NormalizePlace(place);
      NormalizedKeepsValues(place);
      var instanceUrls := updatedPlace[InstanceUrlsKey].entries[ValueKey];
      var item := updatedPlace[ItemKey].entries[ValueKey];
      assert Warning(instanceUrls, item) == WarningOf(place);
      var foundGroupForPlace;
      ghost var before := grouped;
      grouped, foundGroupForPlace := AddToGroups(table, grouped, InstanceQIds(instanceUrls), updatedPlace);
      GroupsAfterRow(table, places, i, before, grouped);
      WarningsAfterRow(table, places, i, foundGroupForPlace);
      if !foundGroupForPlace {
        warnings := warnings + [Warning(instanceUrls, item)];
      }
    }
    assert places[..|places|] == places;
  }

  /** `groupFilteredPlacesByType`: the grouping over `PLACE_GROUPS_IDS`, keyed by its eight names. */
  method GroupFilteredPlacesByType(places: seq<RawBinding>) returns (grouped: map<string, seq<Place>>, warnings: seq<Warning>)
    requires AllWellFormed(places)
    ensures grouped.Keys == {"events", "extPolicePrisons", "fieldOffices", "laborEducationCamps",
                             "memorials", "prisons", "statePoliceHeadquarters", "statePoliceOffices"}
    ensures forall j :: 0 <= j < |PlaceGroupsIds| ==> grouped[PlaceGroupsIds[j].name] == Group(PlaceGroupsIds[j], places)
    ensures warnings == Warnings(PlaceGroupsIds, places)
  {
    PlaceGroupsIdsShape();
    grouped, warnings := GroupPlaces(PlaceGroupsIds, places);
  }

  // ---------------------------------------------------------------------------
  // The categories of the reference table
  // ---------------------------------------------------------------------------

  /**
   * A place whose instances are the entity URLs of `qids` is taken by
   * exactly the categories that list one of them.
   */
  lemma HitsOfEntityUrls(row: RawBinding, qids: seq<string>)
    requires WellFormedRow(row)
    requires |qids| >= 1 && PlainQIds(qids) && InstanceUrls(row) == EntityUrls(qids)
    ensures forall c :: Hits(c, row) <==> exists k :: 0 <= k < |qids| && qids[k] in c.qids
  {
    InstanceQIdsOfEntityUrls(qids);
    forall c
      ensures Hits(c, row) <==> exists k :: 0 <= k < |qids| && qids[k] in c.qids
    {
      var common := ArrayIntersect(qids, c.qids);
      if Hits(c, row) {
        assert common[0] in qids;
      }
    }
  }

  /** A short Q-id (shorter than the entity prefix) is plain when it holds no `|`. */
  lemma ShortQIdPlain(q: string)
    requires |q| < |EntityPrefix| && '|' !in q
    ensures PlainQIds([q])
  {
    forall i | 0 <= i <= |q| ensures !(EntityPrefix <= q[i..]) {
      assert |q[i..]| < |EntityPrefix|;
    }
  }

  /** A place whose only instance is the entity URL of `q` is taken by exactly the categories listing `q`. */
  lemma OnlyInstance(row: RawBinding, q: string)
    requires WellFormedRow(row)
    requires |q| < |EntityPrefix| && '|' !in q && InstanceUrls(row) == EntityUrls([q])
    ensures forall c :: Hits(c, row) <==> q in c.qids
  {
    ShortQIdPlain(q);
    HitsOfEntityUrls(row, [q]);
    forall c
      ensures Hits(c, row) <==> q in c.qids
    {
      if q in c.qids {
        assert [q][0] in c.qids;
      }
    }
  }

  /** A place with two instances is taken by exactly the categories listing one of them. */
  lemma TwoInstances(row: RawBinding, p: string, q: string)
    requires WellFormedRow(row)
    requires |p| < |EntityPrefix| && '|' !in p && |q| < |EntityPrefix| && '|' !in q
    requires InstanceUrls(row) == EntityUrls([p, q])
    ensures forall c :: Hits(c, row) <==> p in c.qids || q in c.qids
  {
    ShortQIdPlain(p);
    ShortQIdPlain(q);
    var qids := [p, q];
    assert PlainQIds(qids) by {
      assert PlainQIds([qids[0]]) && PlainQIds([qids[1]]);
    }
    HitsOfEntityUrls(row, qids);
    forall c
      ensures Hits(c, row) <==> p in c.qids || q in c.qids
    {
      if p in c.qids {
        assert qids[0] in c.qids;
      }
      if q in c.qids {
        assert qids[1] in c.qids;
      }
    }
  }

  /** `events` and `memorials` list no ids, so they stay empty whatever the rows. */
  lemma EventsAndMemorialsStayEmpty(places: seq<RawBinding>)
    requires AllWellFormed(places)
    ensures PlaceGroupsIds[0].name == "events" && Group(PlaceGroupsIds[0], places) == []
    ensures PlaceGroupsIds[4].name == "memorials" && Group(PlaceGroupsIds[4], places) == []
  {
    assert PlaceGroupsIds[0] == Category("events", []);
    assert PlaceGroupsIds[4] == Category("memorials", []);
    EmptyCategoryStaysEmpty(PlaceGroupsIds[0], places);
    EmptyCategoryStaysEmpty(PlaceGroupsIds[4], places);
  }

  /** A single row is in a category's group exactly when it matches it. */
  lemma GroupOfOne(c: Category, row: RawBinding)
    requires WellFormedRow(row)
    ensures AllWellFormed([row])
    ensures Group(c, [row]) == if Hits(c, row) then [Normalized(row)] else []
  {
    GroupStep(c, [row], 0);
    assert [row][..1] == [row] && [row][..0] == [];
  }

  /** A single row is warned about exactly when no category takes it. */
  lemma WarningsOfOne(table: seq<Category>, row: RawBinding)
    requires WellFormedRow(row)
    ensures AllWellFormed([row])
    ensures Warnings(table, [row]) == if Unmatched(table, row) then [WarningOf(row)] else []
  {
    WarningsStep(table, [row], 0);
    assert [row][..1] == [row] && [row][..0] == [];
  }

  /** `Q40357` is listed by `prisons` and by no other category. */
  lemma PrisonIdOnlyInPrisons()
    ensures forall j :: 0 <= j < |PlaceGroupsIds| ==> ("Q40357" in PlaceGroupsIds[j].qids <==> PlaceGroupsIds[j].name == "prisons")
  {
    forall j | 0 <= j < |PlaceGroupsIds|
      ensures "Q40357" in PlaceGroupsIds[j].qids <==> PlaceGroupsIds[j].name == "prisons"
    {
      var c := PlaceGroupsIds[j];
      if j == 5 {
        assert c.qids == ["Q40357"];
      } else {
        assert forall k :: 0 <= k < |c.qids| ==> |c.qids[k]| != 6;
      }
    }
  }

  /** A single row, over any table, lands in exactly the categories named in `names`. */
  lemma OneRowGroups(table: seq<Category>, row: RawBinding, names: set<string>)
    requires WellFormedRow(row)
    requires forall j :: 0 <= j < |table| ==> (Hits(table[j], row) <==> table[j].name in names)
    ensures forall j :: 0 <= j < |table| ==>
              Group(table[j], [row]) == if table[j].name in names then [Normalized(row)] else []
  {
    forall j | 0 <= j < |table|
      ensures Group(table[j], [row]) == if table[j].name in names then [Normalized(row)] else []
    {
      GroupOfOne(table[j], row);
    }
  }

  /** A single row, over any table, draws a warning exactly when no category named in `names` exists. */
  lemma OneRowWarnings(table: seq<Category>, row: RawBinding, names: set<string>)
    requires WellFormedRow(row)
    requires forall j :: 0 <= j < |table| ==> (Hits(table[j], row) <==> table[j].name in names)
    ensures Warnings(table, [row])
         == if exists j :: 0 <= j < |table| && table[j].name in names then [] else [WarningOf(row)]
  {
    WarningsOfOne(table, row);
    if exists j :: 0 <= j < |table| && table[j].name in names {
      var j :| 0 <= j < |table| && table[j].name in names;
      assert Hits(table[j], row);
    }
  }

  /** A prison (`Q40357`) lands in `prisons` and in no other category, with no warning. */
  lemma PrisonOnly(row: RawBinding)
    requires WellFormedRow(row)
    requires InstanceUrls(row) == EntityUrls(["Q40357"])
    ensures forall j :: 0 <= j < |PlaceGroupsIds| ==>
              Group(PlaceGroupsIds[j], [row]) == if PlaceGroupsIds[j].name == "prisons" then [Normalized(row)] else []
    ensures Warnings(PlaceGroupsIds, [row]) == []
  {
    OnlyInstance(row, "Q40357");
    PrisonIdOnlyInPrisons();
    OneRowGroups(PlaceGroupsIds, row, {"prisons"});
    OneRowWarnings(PlaceGroupsIds, row, {"prisons"});
    assert PlaceGroupsIds[5].name in {"prisons"};
  }

  /** `Q277565` is listed by `laborEducationCamps` and by no other category. */
  lemma CampIdOnlyInCamps()
    ensures forall j :: 0 <= j < |PlaceGroupsIds| ==>
              ("Q277565" in PlaceGroupsIds[j].qids <==> PlaceGroupsIds[j].name == "laborEducationCamps")
  {
    forall j | 0 <= j < |PlaceGroupsIds|
      ensures "Q277565" in PlaceGroupsIds[j].qids <==> PlaceGroupsIds[j].name == "laborEducationCamps"
    {
      var c := PlaceGroupsIds[j];
      if j == 3 {
        assert c.qids == ["Q277565"];
      } else {
        assert forall k :: 0 <= k < |c.qids| ==> |c.qids[k]| != 7;
      }
    }
  }

  /**
   * Multi-membership: a place that is both a prison and a labour education
   * camp is in both of those groups and in no other, with no warning.
   */
  lemma PrisonAndCamp(row: RawBinding)
    requires WellFormedRow(row)
    requires InstanceUrls(row) == EntityUrls(["Q40357", "Q277565"])
    ensures forall j :: 0 <= j < |PlaceGroupsIds| ==>
              Group(PlaceGroupsIds[j], [row])
                == if PlaceGroupsIds[j].name in {"prisons", "laborEducationCamps"} then [Normalized(row)] else []
    ensures Warnings(PlaceGroupsIds, [row]) == []
  {
    PrisonAndCampHits(row);
    OneRowGroups(PlaceGroupsIds, row, {"prisons", "laborEducationCamps"});
    OneRowWarnings(PlaceGroupsIds, row, {"prisons", "laborEducationCamps"});
    assert PlaceGroupsIds[5].name in {"prisons", "laborEducationCamps"};
  }

  /** A place with both instances is taken by exactly `prisons` and `laborEducationCamps`. */
  lemma PrisonAndCampHits(row: RawBinding)
    requires WellFormedRow(row)
    requires InstanceUrls(row) == EntityUrls(["Q40357", "Q277565"])
    ensures forall j :: 0 <= j < |PlaceGroupsIds| ==>
              (Hits(PlaceGroupsIds[j], row) <==> PlaceGroupsIds[j].name in {"prisons", "laborEducationCamps"})
  {
    TwoInstances(row, "Q40357", "Q277565");
    PrisonIdOnlyInPrisons();
    CampIdOnlyInCamps();
    forall j | 0 <= j < |PlaceGroupsIds|
      ensures Hits(PlaceGroupsIds[j], row) <==> PlaceGroupsIds[j].name in {"prisons", "laborEducationCamps"}
    {
      var c := PlaceGroupsIds[j];
      assert Hits(c, row) <==> "Q40357" in c.qids || "Q277565" in c.qids;
    }
  }

  /** No category lists `Q5`: every listed id is longer. */
  lemma UnlistedId()
    ensures forall j :: 0 <= j < |PlaceGroupsIds| ==> "Q5" !in PlaceGroupsIds[j].qids
  {
    forall j | 0 <= j < |PlaceGroupsIds|
      ensures "Q5" !in PlaceGroupsIds[j].qids
    {
      var c := PlaceGroupsIds[j];
      assert forall k :: 0 <= k < |c.qids| ==> |c.qids[k]| > 2;
    }
  }

  /** A place whose only instance no category lists is in no group and draws one warning. */
  lemma UnknownInstanceWarns(row: RawBinding)
    requires WellFormedRow(row)
    requires InstanceUrls(row) == EntityUrls(["Q5"])
    ensures forall j :: 0 <= j < |PlaceGroupsIds| ==> Group(PlaceGroupsIds[j], [row]) == []
    ensures Warnings(PlaceGroupsIds, [row]) == [Warning(EntityUrls(["Q5"]), row[ItemKey][ValueKey])]
  {
    UnlistedId();
    OnlyInstance(row, "Q5");
    OneRowGroups(PlaceGroupsIds, row, {});
    OneRowWarnings(PlaceGroupsIds, row, {});
  }
}
