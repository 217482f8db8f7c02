/**
  The property/filter classification of DeepCopyDebugger: for an entity class
  and its declared property names, which DeepCopy filters apply to which
  property, and the split into matched and unmatched properties.

  Filter records come in already normalised: each names its matcher kind with
  the matcher's data, and the filter (the copy action) by its class name.
 */
module DeepCopyDebugger {
  import opened Sequences
  import opened OrderedMaps

  /** The matcher of a registered DeepCopy filter, with the data the debugger reads from it. */
  datatype Matcher =
    | PropertyNameMatcher(property: string)
    | PropertyMatcher(className: string, property: string)
    | OtherMatcher(matcherClass: string)

  /** One entry of DeepCopy's filter list. */
  datatype FilterRecord = FilterRecord(matcher: Matcher, filter: string)

  /** Property name => the filters that apply to it, in property order. */
  type Classification = OrderedMap<string, seq<FilterRecord>>

  /** Whether `f` applies to `property` of `entityClass`. */
  predicate Applies(f: FilterRecord, entityClass: string, property: string): (r: bool)
    ensures r ==> !f.matcher.OtherMatcher? && f.matcher.property == property
    ensures r && f.matcher.PropertyMatcher? ==> f.matcher.className == entityClass
  {
    match f.matcher
    case PropertyNameMatcher(p) => p == property
    case PropertyMatcher(c, p) => c == entityClass && p == property
    case OtherMatcher(_) => false
  }

  /** The filters of `filters` that apply to `property`, in the collection's order. */
  function MatchingFilters(filters: seq<FilterRecord>, entityClass: string, property: string): seq<FilterRecord> {
    if filters == [] then []
    else
      var init, last := filters[..|filters| - 1], filters[|filters| - 1];
      MatchingFilters(init, entityClass, property) + if Applies(last, entityClass, property) then [last] else []
  }

  /** Each property paired with the filters that apply to it. */
  function Classify(entityClass: string, properties: seq<string>, filters: seq<FilterRecord>): Classification {
    seq(|properties|, i requires 0 <= i < |properties| =>
      (properties[i], MatchingFilters(filters, entityClass, properties[i])))
  }

  /** The entries with at least one filter (`array_filter` keeps the non-empty lists). */
  function Matched(m: Classification): Classification {
    if m == [] then []
    else (if m[0].1 != [] then [m[0]] else []) + Matched(m[1..])
  }

  /** The entries with no filter. */
  function Unmatched(m: Classification): Classification {
    if m == [] then []
    else (if m[0].1 == [] then [m[0]] else []) + Unmatched(m[1..])
  }

  /**
    The property collection of an entity: each declared name as key and as
    value. A name declared twice overwrites its own entry, which keeps its
    first position.
   */
  method GetPropertyCollection(declared: seq<string>) returns (propertyCollection: OrderedMap<string, string>)
    ensures Keys(propertyCollection) == Dedup(declared)
    ensures forall i :: 0 <= i < |propertyCollection| ==> propertyCollection[i].1 == propertyCollection[i].0
  {
    propertyCollection := [];
    for n := 0 to |declared|
      invariant Keys(propertyCollection) == Dedup(declared[..n])
      invariant forall e :: e in propertyCollection ==> e.1 == e.0
    {
      var propertyName := declared[n];
      assert declared[..n + 1][..n] == declared[..n];
      DedupCharacterisation(declared[..n]);
      propertyCollection := Set(propertyCollection, propertyName, propertyName);
    }
    assert declared[..|declared|] == declared;
  }

  /**
    For every property of `entityClass` (declared names `declared`), the
    filters of `filters` that apply to it, in filter order; properties with no
    filter map to the empty list.
   */
  method GetMatchedAndUnmatchedEntityProperties(entityClass: string, declared: seq<string>, filters: seq<FilterRecord>)
    returns (matchedPropertyCollection: Classification)
    ensures matchedPropertyCollection == Classify(entityClass, Dedup(declared), filters)
    ensures Keys(matchedPropertyCollection) == Dedup(declared)
  {
    matchedPropertyCollection := [];
    var propertyCollection := GetPropertyCollection(declared);
    ghost var properties := Keys(propertyCollection);

    for i := 0 to |propertyCollection|
      invariant matchedPropertyCollection == Classify(entityClass, properties[..i], filters)
    {
      var property := propertyCollection[i].1;
      assert property == properties[i];
      ghost var before := matchedPropertyCollection;
      NewPropertyIsAbsent(entityClass, declared, i, filters);
      SetAbsent(matchedPropertyCollection, property, []);
      matchedPropertyCollection := Set(matchedPropertyCollection, property, []);

      for j := 0 to |filters|
        invariant matchedPropertyCollection == before + [(property, MatchingFilters(filters[..j], entityClass, property))]
      {
        var filter := filters[j];
        ghost var matchedSoFar := MatchingFilters(filters[..j], entityClass, property);
        MatchingFiltersStep(filters, j, entityClass, property);
        match filter.matcher {
          case PropertyNameMatcher(p) =>
            if p == property {
              PushLast(before, property, matchedSoFar, filter);
              matchedPropertyCollection := Push(matchedPropertyCollection, property, filter);
            }
          case PropertyMatcher(c, p) =>
            if c == entityClass && p == property {
              PushLast(before, property, matchedSoFar, filter);
              matchedPropertyCollection := Push(matchedPropertyCollection, property, filter);
            }
          case OtherMatcher(_) =>
        }
      }
      assert filters[..|filters|] == filters;
      ClassifyStep(entityClass, properties, i, filters);
    }
    assert properties[..|propertyCollection|] == properties;
    ClassifyKeys(entityClass, properties, filters);
  }

  /** Scanning one more filter appends it to the list exactly when it applies. */
  lemma MatchingFiltersStep(filters: seq<FilterRecord>, j: nat, entityClass: string, property: string)
    requires j < |filters|
    ensures MatchingFilters(filters[..j + 1], entityClass, property)
         == if Applies(filters[j], entityClass, property)
            then MatchingFilters(filters[..j], entityClass, property) + [filters[j]]
            else MatchingFilters(filters[..j], entityClass, property)
  {
    assert filters[..j + 1][..j] == filters[..j];
  }

  /** Classifying one more property appends its entry. */
  lemma ClassifyStep(entityClass: string, properties: seq<string>, i: nat, filters: seq<FilterRecord>)
    requires i < |properties|
    ensures Classify(entityClass, properties[..i + 1], filters)
         == Classify(entityClass, properties[..i], filters)
            + [(properties[i], MatchingFilters(filters, entityClass, properties[i]))]
  {
  }

  /** The property collection has distinct keys, so the next property is not yet a key of the partial result. */
  lemma NewPropertyIsAbsent(entityClass: string, declared: seq<string>, i: nat, filters: seq<FilterRecord>)
    requires i < |Dedup(declared)|
    ensures var properties := Dedup(declared);
      properties[i] !in Keys(Classify(entityClass, properties[..i], filters))
  {
    var properties := Dedup(declared);
    DedupCharacterisation(declared);
    assert Keys(Classify(entityClass, properties[..i], filters)) == properties[..i];
  }

  /** The properties of `entityClass` that at least one filter applies to, with those filters. */
  method GetMatchedEntityProperties(entityClass: string, declared: seq<string>, filters: seq<FilterRecord>)
    returns (matched: Classification)
    ensures matched == Matched(Classify(entityClass, Dedup(declared), filters))
    ensures forall e :: e in matched ==> e.1 != [] && e.0 in declared
  {
    var entityProperties := GetMatchedAndUnmatchedEntityProperties(entityClass, declared, filters);
    matched := Matched(entityProperties);
    MatchedEntries(entityProperties);
    KeysOfEntries(entityProperties, declared);
  }

  /** The properties of `entityClass` that no filter applies to, each with the empty list. */
  method GetUnmatchedEntityProperties(entityClass: string, declared: seq<string>, filters: seq<FilterRecord>)
    returns (unmatched: Classification)
    ensures unmatched == Unmatched(Classify(entityClass, Dedup(declared), filters))
    ensures forall e :: e in unmatched ==> e.1 == [] && e.0 in declared
  {
    var entityProperties := GetMatchedAndUnmatchedEntityProperties(entityClass, declared, filters);
    unmatched := Unmatched(entityProperties);
    UnmatchedEntries(entityProperties);
    KeysOfEntries(entityProperties, declared);
  }

  /** Every entry of a result keyed by the property collection is keyed by a declared name. */
  lemma KeysOfEntries(m: Classification, declared: seq<string>)
    requires Keys(m) == Dedup(declared)
    ensures forall e :: e in m ==> e.0 in declared
  {
    DedupCharacterisation(declared);
    forall e | e in m
      ensures e.0 in declared
    {
      var i :| 0 <= i < |m| && m[i] == e;
      assert Keys(m)[i] == e.0;
    }
  }

  // ---------------------------------------------------------------------------
  // Properties of the classification

  /**
    The full result has one entry per property, in the order of the property
    collection, including properties that no filter applies to.
   */
  lemma ClassifyKeys(entityClass: string, properties: seq<string>, filters: seq<FilterRecord>)
    ensures Keys(Classify(entityClass, properties, filters)) == properties
    ensures WellFormed(Classify(entityClass, properties, filters)) <==> Distinct(properties)
  {
    assert Keys(Classify(entityClass, properties, filters)) == properties;
  }

  /** The positions in `filters` of the filters that apply, in increasing order. */
  ghost function ApplicablePositions(filters: seq<FilterRecord>, entityClass: string, property: string): seq<int> {
    if filters == [] then []
    else
      var init := filters[..|filters| - 1];
      ApplicablePositions(init, entityClass, property)
        + if Applies(filters[|filters| - 1], entityClass, property) then [|init|] else []
  }

  /**
    A property's list is the filter collection read at the increasing
    positions of exactly the filters that apply: filter order is kept.
   */
  lemma {:induction false} MatchingFiltersInOrder(filters: seq<FilterRecord>, entityClass: string, property: string)
    ensures SubsequenceAt(MatchingFilters(filters, entityClass, property), filters, ApplicablePositions(filters, entityClass, property))
    ensures forall j :: 0 <= j < |filters| ==>
              (Applies(filters[j], entityClass, property) <==> j in ApplicablePositions(filters, entityClass, property))
  {
    if filters != [] {
      var init, last := filters[..|filters| - 1], filters[|filters| - 1];
      assert filters == init + [last];
      MatchingFiltersInOrder(init, entityClass, property);
      var idx' := ApplicablePositions(init, entityClass, property);
      SubsequenceAtSnoc(MatchingFilters(init, entityClass, property), init, idx', last);
      assert |init| !in idx';
      forall j | 0 <= j < |init|
        ensures Applies(filters[j], entityClass, property) <==> j in ApplicablePositions(filters, entityClass, property)
      {
        assert filters[j] == init[j];
      }
    }
  }

  /** A filter is in a property's list exactly when it is in the collection and applies. */
  lemma {:induction false} MatchingFiltersMembership(filters: seq<FilterRecord>, entityClass: string, property: string, f: FilterRecord)
    ensures f in MatchingFilters(filters, entityClass, property) <==> f in filters && Applies(f, entityClass, property)
  {
    if filters != [] {
      var init := filters[..|filters| - 1];
      assert filters == init + [filters[|filters| - 1]];
      MatchingFiltersMembership(init, entityClass, property, f);
    }
  }

  /** A PropertyNameMatcher filter is listed for a property exactly when the names are equal, whatever the entity class. */
  lemma PropertyNameMatcherMatchesAnyClass(entityClass: string, properties: seq<string>, filters: seq<FilterRecord>, i: nat, f: FilterRecord)
    requires i < |properties| && f in filters && f.matcher.PropertyNameMatcher?
    ensures f in Classify(entityClass, properties, filters)[i].1 <==> f.matcher.property == properties[i]
  {
    MatchingFiltersMembership(filters, entityClass, properties[i], f);
  }

  /**
    A PropertyMatcher filter is listed for a property exactly when both its
    class is the entity class and its property is the property's name.
   */
  lemma PropertyMatcherNeedsClassAndName(entityClass: string, properties: seq<string>, filters: seq<FilterRecord>, i: nat, f: FilterRecord)
    requires i < |properties| && f in filters && f.matcher.PropertyMatcher?
    ensures f in Classify(entityClass, properties, filters)[i].1
            <==> f.matcher.className == entityClass && f.matcher.property == properties[i]
  {
    MatchingFiltersMembership(filters, entityClass, properties[i], f);
  }

  /** A filter of any other matcher kind is listed for no property. */
  lemma OtherMatcherNeverListed(entityClass: string, properties: seq<string>, filters: seq<FilterRecord>)
    ensures forall i, f :: 0 <= i < |properties| && f in Classify(entityClass, properties, filters)[i].1 ==>
              f in filters && !f.matcher.OtherMatcher?
  {
    forall i, f | 0 <= i < |properties| && f in Classify(entityClass, properties, filters)[i].1
      ensures f in filters && !f.matcher.OtherMatcher?
    {
      MatchingFiltersMembership(filters, entityClass, properties[i], f);
    }
  }

  /**
    Property keys of the collection are distinct, so a filter is listed for
    at most one property.
   */
  lemma FilterListedForAtMostOneProperty(entityClass: string, declared: seq<string>, filters: seq<FilterRecord>)
    ensures var r := Classify(entityClass, Dedup(declared), filters);
      forall i, k, f :: 0 <= i < k < |r| && f in r[i].1 ==> f !in r[k].1
  {
    var properties := Dedup(declared);
    var r := Classify(entityClass, properties, filters);
    DedupCharacterisation(declared);
    forall i, k, f | 0 <= i < k < |r| && f in r[i].1
      ensures f !in r[k].1
    {
      MatchingFiltersMembership(filters, entityClass, properties[i], f);
      MatchingFiltersMembership(filters, entityClass, properties[k], f);
      assert properties[i] != properties[k];
    }
  }

  // ---------------------------------------------------------------------------
  // Properties of the matched and unmatched views

  /** The positions in `m` of the entries with a non-empty list, in increasing order. */
  ghost function NonEmptyPositions(m: Classification): seq<int> {
    if m == [] then []
    else (if m[0].1 != [] then [0] else []) + Shift(NonEmptyPositions(m[1..]))
  }

  /** The positions in `m` of the entries with an empty list, in increasing order. */
  ghost function EmptyPositions(m: Classification): seq<int> {
    if m == [] then []
    else (if m[0].1 == [] then [0] else []) + Shift(EmptyPositions(m[1..]))
  }

  /** The matched view is the full result read at the increasing positions of exactly its non-empty entries. */
  lemma {:induction false} MatchedInOrder(m: Classification)
    ensures SubsequenceAt(Matched(m), m, NonEmptyPositions(m))
    ensures forall j :: 0 <= j < |m| ==> (m[j].1 != [] <==> j in NonEmptyPositions(m))
  {
    if m != [] {
      var rest := m[1..];
      assert m == [m[0]] + rest;
      MatchedInOrder(rest);
      SubsequenceAtCons(Matched(rest), rest, NonEmptyPositions(rest), m[0]);
      forall j | 0 <= j < |m|
        ensures m[j].1 != [] <==> j in NonEmptyPositions(m)
      {
        ShiftMembership(NonEmptyPositions(rest), j);
        if j > 0 {
          assert m[j] == rest[j - 1];
        } else {
          ShiftMembership(NonEmptyPositions(rest), 0);
          assert -1 !in NonEmptyPositions(rest);
        }
      }
    }
  }

  /** The unmatched view is the full result read at the increasing positions of exactly its empty entries. */
  lemma {:induction false} UnmatchedInOrder(m: Classification)
    ensures SubsequenceAt(Unmatched(m), m, EmptyPositions(m))
    ensures forall j :: 0 <= j < |m| ==> (m[j].1 == [] <==> j in EmptyPositions(m))
  {
    if m != [] {
      var rest := m[1..];
      assert m == [m[0]] + rest;
      UnmatchedInOrder(rest);
      SubsequenceAtCons(Unmatched(rest), rest, EmptyPositions(rest), m[0]);
      forall j | 0 <= j < |m|
        ensures m[j].1 == [] <==> j in EmptyPositions(m)
      {
        ShiftMembership(EmptyPositions(rest), j);
        if j > 0 {
          assert m[j] == rest[j - 1];
        } else {
          assert -1 !in EmptyPositions(rest);
        }
      }
    }
  }

  /** The matched view takes only entries of the full result, and only non-empty ones. */
  lemma {:induction false} MatchedEntries(m: Classification)
    ensures forall e :: e in Matched(m) ==> e in m && e.1 != []
  {
    if m != [] {
      MatchedEntries(m[1..]);
    }
  }

  /** The unmatched view takes only entries of the full result, and only empty ones. */
  lemma {:induction false} UnmatchedEntries(m: Classification)
    ensures forall e :: e in Unmatched(m) ==> e in m && e.1 == []
  {
    if m != [] {
      UnmatchedEntries(m[1..]);
    }
  }

  /** No entry is lost or duplicated between the two views. */
  lemma {:induction false} ViewsSizes(m: Classification)
    ensures |Matched(m)| + |Unmatched(m)| == |m|
  {
    if m != [] {
      ViewsSizes(m[1..]);
    }
  }

  /**
    With distinct keys, the two views partition the keys of the full result:
    every key is in exactly one of them.
   */
  lemma {:induction false} ViewsPartitionKeys(m: Classification)
    requires WellFormed(m)
    ensures forall k :: k in Keys(m) <==> k in Keys(Matched(m)) || k in Keys(Unmatched(m))
    ensures forall k :: !(k in Keys(Matched(m)) && k in Keys(Unmatched(m)))
  {
    if m != [] {
      var rest := m[1..];
      KeysTail(m);
      ViewsPartitionKeys(rest);
      KeysOfMatchedAreKeys(rest);
      KeysOfUnmatchedAreKeys(rest);
      if m[0].1 != [] {
        assert Matched(m) == [m[0]] + Matched(rest);
        assert Keys(Matched(m)) == [m[0].0] + Keys(Matched(rest));
        assert Unmatched(m) == Unmatched(rest);
      } else {
        assert Unmatched(m) == [m[0]] + Unmatched(rest);
        assert Keys(Unmatched(m)) == [m[0].0] + Keys(Unmatched(rest));
        assert Matched(m) == Matched(rest);
      }
    }
  }

  /**
    On the result for an entity, the matched and unmatched views split the
    property collection: each property is in exactly one of them.
   */
  lemma ResultViewsPartitionProperties(entityClass: string, declared: seq<string>, filters: seq<FilterRecord>)
    ensures var full := Classify(entityClass, Dedup(declared), filters);
      && (forall k :: k in declared <==> k in Keys(Matched(full)) || k in Keys(Unmatched(full)))
      && (forall k :: !(k in Keys(Matched(full)) && k in Keys(Unmatched(full))))
  {
    var full := Classify(entityClass, Dedup(declared), filters);
    DedupCharacterisation(declared);
    ClassifyKeys(entityClass, Dedup(declared), filters);
    ViewsPartitionKeys(full);
  }

  /** Dropping the first entry of a well-formed result keeps it well-formed and removes its key. */
  lemma KeysTail(m: Classification)
    requires WellFormed(m) && m != []
    ensures Keys(m) == [m[0].0] + Keys(m[1..])
    ensures WellFormed(m[1..]) && m[0].0 !in Keys(m[1..])
  {
    var rest := m[1..];
    assert Keys(m) == [m[0].0] + Keys(rest);
    forall i, j | 0 <= i < j < |rest|
      ensures Keys(rest)[i] != Keys(rest)[j]
    {
      assert Keys(rest)[i] == Keys(m)[i + 1] && Keys(rest)[j] == Keys(m)[j + 1];
    }
    forall j | 0 <= j < |rest|
      ensures Keys(rest)[j] != m[0].0
    {
      assert Keys(rest)[j] == Keys(m)[j + 1] && m[0].0 == Keys(m)[0];
    }
  }

  /** Every key of the matched view is a key of the full result. */
  lemma {:induction false} KeysOfMatchedAreKeys(m: Classification)
    ensures forall k :: k in Keys(Matched(m)) ==> k in Keys(m)
  {
    if m != [] {
      KeysOfMatchedAreKeys(m[1..]);
      assert Keys(m) == [m[0].0] + Keys(m[1..]);
      if m[0].1 != [] {
        assert Keys(Matched(m)) == [m[0].0] + Keys(Matched(m[1..]));
      } else {
        assert Matched(m) == Matched(m[1..]);
      }
    }
  }

  /** Every key of the unmatched view is a key of the full result. */
  lemma {:induction false} KeysOfUnmatchedAreKeys(m: Classification)
    ensures forall k :: k in Keys(Unmatched(m)) ==> k in Keys(m)
  {
    if m != [] {
      KeysOfUnmatchedAreKeys(m[1..]);
      assert Keys(m) == [m[0].0] + Keys(m[1..]);
      if m[0].1 == [] {
        assert Keys(Unmatched(m)) == [m[0].0] + Keys(Unmatched(m[1..]));
      } else {
        assert Unmatched(m) == Unmatched(m[1..]);
      }
    }
  }

  /** With no filter registered, every property is unmatched with the empty list. */
  lemma NoFiltersLeavesEveryPropertyUnmatched(entityClass: string, properties: seq<string>)
    ensures forall i :: 0 <= i < |properties| ==> Classify(entityClass, properties, [])[i] == (properties[i], [])
    ensures Matched(Classify(entityClass, properties, [])) == []
    ensures Unmatched(Classify(entityClass, properties, [])) == Classify(entityClass, properties, [])
  {
    AllEmptyViews(Classify(entityClass, properties, []));
  }

  /** A result whose lists are all empty has an empty matched view and is its own unmatched view. */
  lemma {:induction false} AllEmptyViews(m: Classification)
    requires forall i :: 0 <= i < |m| ==> m[i].1 == []
    ensures Matched(m) == [] && Unmatched(m) == m
  {
    if m != [] {
      AllEmptyViews(m[1..]);
      assert m == [m[0]] + m[1..];
    }
  }

  /** With no declared property, the full result and both views are empty. */
  lemma NoPropertiesGivesEmptyResults(entityClass: string, filters: seq<FilterRecord>)
    ensures Classify(entityClass, Dedup([]), filters) == []
    ensures Matched(Classify(entityClass, Dedup([]), filters)) == []
    ensures Unmatched(Classify(entityClass, Dedup([]), filters)) == []
  {
  }

  /** A one-filter collection lists its filter exactly when it applies. */
  lemma MatchingFiltersSingle(f: FilterRecord, entityClass: string, property: string)
    ensures MatchingFilters([f], entityClass, property) == if Applies(f, entityClass, property) then [f] else []
  {
    assert [f][..0] == [];
  }

  /** Classifying a property in front of others puts its entry in front. */
  lemma ClassifyCons(entityClass: string, p: string, properties: seq<string>, filters: seq<FilterRecord>)
    ensures Classify(entityClass, [p] + properties, filters)
         == [(p, MatchingFilters(filters, entityClass, p))] + Classify(entityClass, properties, filters)
  {
  }

  /** The views of a result with one entry in front. */
  lemma ViewsCons(e: (string, seq<FilterRecord>), m: Classification)
    ensures Matched([e] + m) == (if e.1 != [] then [e] else []) + Matched(m)
    ensures Unmatched([e] + m) == (if e.1 == [] then [e] else []) + Unmatched(m)
  {
    assert ([e] + m)[1..] == m;
  }

  /**
    One PropertyNameMatcher filter for `createdAt`; the entity declares `id`,
    `createdAt` and `total`: only `createdAt` is matched, whatever the class.
   */
  lemma PropertyNameScenario(entityClass: string, id: string, createdAt: string, total: string, action: string)
    requires id != createdAt && id != total && createdAt != total
    ensures var rule := FilterRecord(PropertyNameMatcher(createdAt), action);
      var full := Classify(entityClass, Dedup([id, createdAt, total]), [rule]);
      && Matched(full) == [(createdAt, [rule])]
      && Unmatched(full) == [(id, []), (total, [])]
  {
    var rule := FilterRecord(PropertyNameMatcher(createdAt), action);
    var declared := [id, createdAt, total];
    DedupOfDistinct(declared);
    MatchingFiltersSingle(rule, entityClass, id);
    MatchingFiltersSingle(rule, entityClass, createdAt);
    MatchingFiltersSingle(rule, entityClass, total);
    var e0, e1, e2 := (id, []), (createdAt, [rule]), (total, []);
    assert declared == [id] + ([createdAt] + ([total] + []));
    ClassifyCons(entityClass, total, [], [rule]);
    ClassifyCons(entityClass, createdAt, [total], [rule]);
    ClassifyCons(entityClass, id, [createdAt, total], [rule]);
    var full := [e0] + ([e1] + [e2]);
    assert Classify(entityClass, declared, [rule]) == full;
    ViewsCons(e2, []);
    assert [e2] + [] == [e2];
    ViewsCons(e1, [e2]);
    ViewsCons(e0, [e1] + [e2]);
    assert Matched(full) == [e1];
    assert Unmatched(full) == [e0, e2];
  }

  /**
    One PropertyMatcher filter for `Order::total`: `total` is matched on
    `Order` and unmatched on any other class that declares `total`.
   */
  lemma ClassMismatchScenario(order: string, invoice: string, total: string, action: string)
    requires order != invoice
    ensures var rule := FilterRecord(PropertyMatcher(order, total), action);
      && Matched(Classify(order, Dedup([total]), [rule])) == [(total, [rule])]
      && Unmatched(Classify(invoice, Dedup([total]), [rule])) == [(total, [])]
      && Matched(Classify(invoice, Dedup([total]), [rule])) == []
  {
    var rule := FilterRecord(PropertyMatcher(order, total), action);
    DedupOfDistinct([total]);
    MatchingFiltersSingle(rule, invoice, total);
    MatchingFiltersSingle(rule, order, total);
    assert Classify(invoice, [total], [rule]) == [(total, [])] + [];
    assert Classify(order, [total], [rule]) == [(total, [rule])] + [];
    ViewsCons((total, []), []);
    ViewsCons((total, [rule]), []);
  }
}
