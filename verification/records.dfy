/**
 * The records of a document and the two ways the store looks at them:
 * the search predicate of `entry(_:containsString:inKey:)` and the order an
 * NSSortDescriptor imposes on record ids. Locale-aware substring search,
 * RTFD text extraction and the descriptor's comparison are parameters.
 */
module Records {
  import opened Common

  /** A value stored in an entry: a string, RTFD data (the notes) or an object of any other class. */
  datatype FieldValue = Text(text: string) | Binary(bytes: seq<byte>) | OtherValue

  /** One password entry: the NSMutableDictionary from field name to value. */
  type Entry = map<string, FieldValue>

  /** An element of the archived root array; only dictionaries become entries. */
  datatype ArchivedObject = Dictionary(entry: Entry) | OtherObject

  // ---------------------------------------------------------------------
  // Searching an entry

  /**
   * The text services the search uses: String.localizedCaseInsensitiveContains
   * and the plain string of `NSAttributedString(rtfd:documentAttributes:)`,
   * which is absent when the data is not RTFD.
   */
  datatype TextServices = TextServices(
    localizedCaseInsensitiveContains: (string, string) -> bool,
    rtfdString: seq<byte> -> Option<string>)

  /**
   * entry(_:containsString:inKey:): a string value is searched directly, a
   * data value through its RTFD text; a missing key, other values and data
   * that is not RTFD never match.
   */
  function EntryContains(ts: TextServices, entry: Entry, searchString: string, key: string): (b: bool)
    ensures b ==> key in entry && !entry[key].OtherValue?
    ensures b && entry[key].Binary? ==> ts.rtfdString(entry[key].bytes).Some?
    ensures key in entry && entry[key].Text? ==>
      (b <==> ts.localizedCaseInsensitiveContains(entry[key].text, searchString))
  {
    if key !in entry then false
    else match entry[key]
      case Text(value) => ts.localizedCaseInsensitiveContains(value, searchString)
      case Binary(data) =>
        (match ts.rtfdString(data)
         case Some(value) => ts.localizedCaseInsensitiveContains(value, searchString)
         case None => false)
      case OtherValue => false
  }

  /** The predicate filter(using:) applies: some key of the entry contains the search string. */
  predicate MatchesAnyKey(ts: TextServices, entry: Entry, searchString: string): (b: bool)
    ensures forall key :: EntryContains(ts, entry, searchString, key) ==> b
    ensures b ==> exists key :: key in entry && !entry[key].OtherValue?
  {
    exists key :: key in entry && EntryContains(ts, entry, searchString, key)
  }

  /**
   * The closure of filter(using:): walk the entry's keys, in whatever order
   * the dictionary yields them, and stop at the first that contains the
   * search string.
   */
  method SearchAllKeys(ts: TextServices, entry: Entry, searchString: string) returns (found: bool)
    ensures found <==> MatchesAnyKey(ts, entry, searchString)
  {
    var keys := entry.Keys;
    while keys != {}
      invariant keys <= entry.Keys
      invariant forall key :: key in entry && key !in keys ==> !EntryContains(ts, entry, searchString, key)
      decreases keys
    {
      var key := Pick(keys);
      if EntryContains(ts, entry, searchString, key) {
        return true;
      }
      keys := keys - {key};
    }
    return false;
  }

  // ---------------------------------------------------------------------
  // Ordering ids by a sort descriptor

  /** Foundation's ComparisonResult. */
  datatype Ordering = OrderedAscending | OrderedSame | OrderedDescending

  /** NSSortDescriptor.compare(_:to:) applied to two dictionary lookups (absent for a deleted id). */
  type Comparator = (Option<Entry>, Option<Entry>) -> Ordering

  /**
   * "Compares ascending" is a strict weak ordering, as `sort(by:)` demands of
   * its predicate: asymmetric, and "not ascending" is transitive.
   */
  ghost predicate IsSortDescriptor(cmp: Comparator)
  {
    (forall a, b :: cmp(a, b) == OrderedAscending ==> cmp(b, a) != OrderedAscending)
    && (forall a, b, c :: cmp(a, b) != OrderedAscending && cmp(b, c) != OrderedAscending ==>
          cmp(a, c) != OrderedAscending)
  }

  /** The dictionary lookup `items[id]`. */
  function Lookup(items: map<int, Entry>, id: int): (r: Option<Entry>)
    ensures r.Some? <==> id in items
    ensures r.Some? ==> r.value == items[id]
  {
    if id in items then Some(items[id]) else None
  }

  /** The sort predicate: the record of a compares ascending to the record of b. */
  predicate Precedes(cmp: Comparator, items: map<int, Entry>, a: int, b: int): (p: bool)
    ensures p && IsSortDescriptor(cmp) ==> cmp(Lookup(items, b), Lookup(items, a)) != OrderedAscending
    ensures a == b && IsSortDescriptor(cmp) ==> !p
  {
    cmp(Lookup(items, a), Lookup(items, b)) == OrderedAscending
  }

  /** No later id compares ascending to an earlier one. */
  ghost predicate SortedBy(ids: seq<int>, cmp: Comparator, items: map<int, Entry>)
  {
    forall i, j :: 0 <= i < j < |ids| ==> !Precedes(cmp, items, ids[j], ids[i])
  }

  lemma InsertKeepsSorted(s: seq<int>, p: nat, x: int, cmp: Comparator, items: map<int, Entry>)
    requires IsSortDescriptor(cmp)
    requires SortedBy(s, cmp, items)
    requires p <= |s|
    requires p > 0 ==> !Precedes(cmp, items, x, s[p - 1])
    requires forall k :: p <= k < |s| ==> Precedes(cmp, items, x, s[k])
    ensures SortedBy(s[..p] + [x] + s[p..], cmp, items)
  {
    var t := s[..p] + [x] + s[p..];
    forall i, j | 0 <= i < j < |t|
      ensures !Precedes(cmp, items, t[j], t[i])
    {
      if i < p && j == p {
        if i < p - 1 {
          assert !Precedes(cmp, items, s[p - 1], s[i]);
        }
      } else if i == p {
        assert t[j] == s[j - 1];
      } else if i < p && j > p {
        assert t[i] == s[i] && t[j] == s[j - 1];
      } else if i > p {
        assert t[i] == s[i - 1] && t[j] == s[j - 1];
      }
    }
  }

  /** Inserting x anywhere adds exactly one x. */
  lemma InsertedMultiset(s: seq<int>, p: nat, x: int)
    requires p <= |s|
    ensures multiset(s[..p] + [x] + s[p..]) == multiset(s) + multiset{x}
  {
    assert s == s[..p] + s[p..];
  }

  /** Where an insertion sort puts x: after the last id x does not compare ascending to. */
  method InsertionPoint(sorted: seq<int>, x: int, cmp: Comparator, items: map<int, Entry>) returns (p: nat)
    ensures p <= |sorted|
    ensures p > 0 ==> !Precedes(cmp, items, x, sorted[p - 1])
    ensures forall k :: p <= k < |sorted| ==> Precedes(cmp, items, x, sorted[k])
  {
    p := |sorted|;
    while p > 0 && Precedes(cmp, items, x, sorted[p - 1])
      invariant 0 <= p <= |sorted|
      invariant forall k :: p <= k < |sorted| ==> Precedes(cmp, items, x, sorted[k])
    {
      p := p - 1;
    }
  }

  /**
   * `visibleItemIds.sort(by:)` with the descriptor's ascending comparison as
   * predicate. The library's algorithm is not specified; an insertion sort
   * meets the same contract: a permutation in which no later id compares
   * ascending to an earlier one.
   */
  method SortIds(ids: seq<int>, cmp: Comparator, items: map<int, Entry>) returns (sorted: seq<int>)
    requires IsSortDescriptor(cmp)
    ensures multiset(sorted) == multiset(ids)
    ensures SortedBy(sorted, cmp, items)
  {
    sorted := [];
    for i := 0 to |ids|
      invariant multiset(sorted) == multiset(ids[..i])
      invariant SortedBy(sorted, cmp, items)
    {
      var x := ids[i];
      var p := InsertionPoint(sorted, x, cmp, items);
      InsertKeepsSorted(sorted, p, x, cmp, items);
      InsertedMultiset(sorted, p, x);
      assert ids[..i + 1] == ids[..i] + [x];
      sorted := sorted[..p] + [x] + sorted[p..];
    }
    assert ids[..|ids|] == ids;
  }
}
