/**
 * SearchService: three in-memory indexes from a lower-cased field value to
 * the records holding it, an exact-match lookup over them that falls back
 * to a case-insensitive match in the crimes collection, and a search that
 * ANDs several criteria together.
 *
 * The collection is the sequence of its documents in the order find()
 * yields them; a find with a filter yields the matching ones in the same
 * order. The records the service builds are its own copies and nothing
 * edits them, so they are values.
 */
module SearchServices {
  import opened Wrappers
  import opened JavaText
  import opened Crimes
  import opened CrimeRecords

  /** The record fields a search can name. */
  datatype Field = Name | City | CrimeType | Details

  function FieldValue(v: CrimeData, field: Field): string {
    match field
    case Name => v.name
    case City => v.city
    case CrimeType => v.crimeType
    case Details => v.details
  }

  /** The index key of a record: its field value lower-cased. */
  function Key(v: CrimeData, field: Field): string {
    ToLower(FieldValue(v, field))
  }

  // ---- the index, as a function of the records read ----------------------

  /** The records whose key is k, in the order they were read. */
  function Bucket(vs: seq<CrimeData>, field: Field, k: string): (b: seq<CrimeData>)
    ensures |b| <= |vs|
  {
    if vs == [] then []
    else
      var rest := Bucket(vs[..|vs| - 1], field, k);
      if Key(vs[|vs| - 1], field) == k then rest + [vs[|vs| - 1]] else rest
  }

  /** The keys present among the records. */
  function Keys(vs: seq<CrimeData>, field: Field): set<string> {
    set i | 0 <= i < |vs| :: Key(vs[i], field)
  }

  /** The index a build over the records produces: one bucket per key present. */
  function IndexOf(vs: seq<CrimeData>, field: Field): map<string, seq<CrimeData>> {
    map k | k in Keys(vs, field) :: Bucket(vs, field, k)
  }

  /** computeIfAbsent(k, new list).add(v). */
  function AddTo(index: map<string, seq<CrimeData>>, k: string, v: CrimeData): map<string, seq<CrimeData>> {
    index[k := (if k in index then index[k] else []) + [v]]
  }

  /** A bucket holds exactly the records read with that key, and nothing else. */
  lemma {:induction false} BucketMembers(vs: seq<CrimeData>, field: Field, k: string)
    ensures forall v :: v in Bucket(vs, field, k) <==> v in vs && Key(v, field) == k
  {
    if vs != [] {
      BucketMembers(vs[..|vs| - 1], field, k);
      assert vs == vs[..|vs| - 1] + [vs[|vs| - 1]];
    }
  }

  /** A key is present exactly when its bucket is non-empty. */
  lemma {:induction false} BucketNonEmpty(vs: seq<CrimeData>, field: Field, k: string)
    ensures k in Keys(vs, field) <==> Bucket(vs, field, k) != []
  {
    BucketMembers(vs, field, k);
    if k in Keys(vs, field) {
      var i :| 0 <= i < |vs| && Key(vs[i], field) == k;
      assert vs[i] in Bucket(vs, field, k);
    }
    if Bucket(vs, field, k) != [] {
      var v := Bucket(vs, field, k)[0];
      assert v in Bucket(vs, field, k);
      assert v in vs;
      var i :| 0 <= i < |vs| && vs[i] == v;
      assert Key(vs[i], field) in Keys(vs, field);
    }
  }

  /** Reading one more record extends its key's bucket and no other. */
  lemma BucketStep(vs: seq<CrimeData>, v: CrimeData, field: Field, k: string)
    ensures Bucket(vs + [v], field, k) == Bucket(vs, field, k) + (if Key(v, field) == k then [v] else [])
  {
    assert (vs + [v])[..|vs|] == vs;
  }

  /** Reading one more record adds its key. */
  lemma KeysStep(vs: seq<CrimeData>, v: CrimeData, field: Field)
    ensures Keys(vs + [v], field) == Keys(vs, field) + {Key(v, field)}
  {
    var ws := vs + [v];
    forall k | k in Keys(ws, field) ensures k in Keys(vs, field) + {Key(v, field)} {
      var i :| 0 <= i < |ws| && Key(ws[i], field) == k;
      if i < |vs| {
        assert ws[i] == vs[i];
      }
    }
    forall k | k in Keys(vs, field) ensures k in Keys(ws, field) {
      var i :| 0 <= i < |vs| && Key(vs[i], field) == k;
      assert ws[i] == vs[i];
    }
    assert ws[|vs|] == v;
  }

  /** IndexStep, for an index known to be built from vs. */
  lemma Filed(vs: seq<CrimeData>, v: CrimeData, field: Field, index: map<string, seq<CrimeData>>, added: map<string, seq<CrimeData>>)
    requires index == IndexOf(vs, field) && added == AddTo(index, Key(v, field), v)
    ensures added == IndexOf(vs + [v], field)
  {
    IndexStep(vs, v, field);
  }

  /** Indexing one more record adds it at the end of its key's bucket. */
  lemma IndexStep(vs: seq<CrimeData>, v: CrimeData, field: Field)
    ensures IndexOf(vs + [v], field) == AddTo(IndexOf(vs, field), Key(v, field), v)
  {
    var ws := vs + [v];
    var key := Key(v, field);
    var index := IndexOf(vs, field);
    KeysStep(vs, v, field);
    BucketNonEmpty(vs, field, key);
    forall k | k in Keys(ws, field) ensures IndexOf(ws, field)[k] == AddTo(index, key, v)[k] {
      BucketStep(vs, v, field, k);
    }
  }

  // ---- statistics -------------------------------------------------------

  /** The sum of the values of a map. */
  ghost function Sum(m: map<string, int>): int
    decreases |m|
  {
    if m == map[] then 0
    else
      var k :| k in m;
      m[k] + Sum(m - {k})
  }

  /** Summing may start from any key. */
  lemma {:induction false} SumRemove(m: map<string, int>, k: string)
    requires k in m
    ensures Sum(m) == m[k] + Sum(m - {k})
    decreases |m|
  {
    var j :| j in m && Sum(m) == m[j] + Sum(m - {j});
    if j != k {
      SumRemove(m - {j}, k);
      SumRemove(m - {k}, j);
      assert m - {j} - {k} == m - {k} - {j};
    }
  }

  /** getCrimeStatistics' map for an index: each key to its bucket's size. */
  function Sizes(index: map<string, seq<CrimeData>>): (sizes: map<string, int>)
    ensures sizes.Keys == index.Keys
    ensures forall k :: k in index ==> sizes[k] == |index[k]|
  {
    map k | k in index :: |index[k]|
  }

  /** The bucket sizes of a built index add up to the number of records read. */
  lemma {:induction false} IndexCounts(vs: seq<CrimeData>, field: Field)
    ensures Sum(Sizes(IndexOf(vs, field))) == |vs|
  {
    if vs == [] {
      assert Sizes(IndexOf(vs, field)) == map[];
    } else {
      var rest := vs[..|vs| - 1];
      var v := vs[|vs| - 1];
      var k := Key(v, field);
      assert vs == rest + [v];
      IndexCounts(rest, field);
      IndexStep(rest, v, field);
      SizesAdd(IndexOf(rest, field), k, v);
    }
  }

  /** Filing one more record adds one to the total. */
  lemma SizesAdd(index: map<string, seq<CrimeData>>, k: string, v: CrimeData)
    ensures Sum(Sizes(AddTo(index, k, v))) == Sum(Sizes(index)) + 1
  {
    var before := Sizes(index);
    var after := Sizes(AddTo(index, k, v));
    SumRemove(after, k);
    assert after - {k} == before - {k};
    if k in before {
      SumRemove(before, k);
    } else {
      assert before - {k} == before;
    }
  }

  // ---- matching the collection ------------------------------------------

  /** A Pattern.CASE_INSENSITIVE match of the value anywhere in the field, as a literal. */
  predicate Matches(v: CrimeData, field: Field, value: string) {
    ContainsIgnoreCase(FieldValue(v, field), value)
  }

  /** One criterion of a find filter: the field matches the value. */
  datatype Criterion = Criterion(field: Field, value: string)

  predicate MatchesAll(v: CrimeData, criteria: seq<Criterion>) {
    forall i :: 0 <= i < |criteria| ==> Matches(v, criteria[i].field, criteria[i].value)
  }

  /** A filter of a single criterion. */
  lemma MatchesOne(v: CrimeData, c: Criterion)
    ensures MatchesAll(v, [c]) <==> Matches(v, c.field, c.value)
  {
    var cs := [c];
    assert cs[0] == c;
    if Matches(v, c.field, c.value) {
      forall i | 0 <= i < |cs| ensures Matches(v, cs[i].field, cs[i].value) {
        assert i == 0;
      }
    }
  }

  /** What find(and(criteria)) yields: the documents matching every criterion, in collection order. */
  function Found(docs: seq<StoredCrime>, criteria: seq<Criterion>, now: Timestamp): (r: seq<StoredCrime>)
    ensures |r| <= |docs|
  {
    if docs == [] then []
    else
      var rest := Found(docs[..|docs| - 1], criteria, now);
      var d := docs[|docs| - 1];
      if MatchesAll(FromDocument(d, now), criteria) then rest + [d] else rest
  }

  /** The records that match every criterion, in order. */
  function Select(vs: seq<CrimeData>, criteria: seq<Criterion>): (r: seq<CrimeData>)
    ensures |r| <= |vs|
  {
    if vs == [] then []
    else
      var rest := Select(vs[..|vs| - 1], criteria);
      var v := vs[|vs| - 1];
      if MatchesAll(v, criteria) then rest + [v] else rest
  }

  /** Selection keeps exactly the matching records. */
  lemma {:induction false} SelectMembers(vs: seq<CrimeData>, criteria: seq<Criterion>)
    ensures forall v :: v in Select(vs, criteria) <==> v in vs && MatchesAll(v, criteria)
  {
    if vs != [] {
      SelectMembers(vs[..|vs| - 1], criteria);
      assert vs == vs[..|vs| - 1] + [vs[|vs| - 1]];
    }
  }

  /** Reading the matched documents gives the matching records of the whole collection. */
  lemma {:induction false} FoundLoaded(docs: seq<StoredCrime>, criteria: seq<Criterion>, now: Timestamp)
    ensures Loaded(Found(docs, criteria, now), now) == Select(Loaded(docs, now), criteria)
  {
    if docs != [] {
      var rest := docs[..|docs| - 1];
      var d := docs[|docs| - 1];
      FoundLoaded(rest, criteria, now);
      assert docs == rest + [d];
      LoadedSnoc(rest, d, now);
      LoadedSnoc(Found(rest, criteria, now), d, now);
      var vs := Loaded(docs, now);
      assert vs[..|vs| - 1] == Loaded(rest, now);
    }
  }

  /** A case-insensitive match does not depend on the case of the value searched for. */
  lemma MatchIgnoresCase(v: CrimeData, field: Field, a: string, b: string)
    requires ToLower(a) == ToLower(b)
    ensures Matches(v, field, a) <==> Matches(v, field, b)
  {
  }

  /** A record whose key equals the lower-cased value matches the value. */
  lemma ExactMatches(v: CrimeData, field: Field, value: string)
    requires Key(v, field) == ToLower(value)
    ensures Matches(v, field, value)
  {
    assert OccursAt(ToLower(FieldValue(v, field)), ToLower(value), 0);
  }

  // ---- lookups ----------------------------------------------------------

  /** searchInDatabase: the records of the documents matching the one criterion; none when the store throws. */
  function DatabaseSearch(docs: seq<StoredCrime>, field: Field, value: string, storeFails: bool, now: Timestamp)
    : seq<CrimeData>
  {
    if storeFails then [] else Loaded(Found(docs, [Criterion(field, value)], now), now)
  }

  /** searchByName/City/CrimeType: a copy of the non-empty bucket for the lower-cased value, else a database search. */
  function Lookup(index: map<string, seq<CrimeData>>, field: Field, value: string,
                  docs: seq<StoredCrime>, storeFails: bool, now: Timestamp): seq<CrimeData>
  {
    var k := ToLower(value);
    if k in index && index[k] != [] then index[k] else DatabaseSearch(docs, field, value, storeFails, now)
  }

  /** Two values that differ only in case find the same records. */
  lemma LookupIgnoresCase(index: map<string, seq<CrimeData>>, field: Field, a: string, b: string,
                          docs: seq<StoredCrime>, storeFails: bool, now: Timestamp)
    requires ToLower(a) == ToLower(b)
    ensures Lookup(index, field, a, docs, storeFails, now) == Lookup(index, field, b, docs, storeFails, now)
  {
    forall d | d in docs
      ensures MatchesAll(FromDocument(d, now), [Criterion(field, a)]) == MatchesAll(FromDocument(d, now), [Criterion(field, b)])
    {
      MatchIgnoresCase(FromDocument(d, now), field, a, b);
      MatchesOne(FromDocument(d, now), Criterion(field, a));
      MatchesOne(FromDocument(d, now), Criterion(field, b));
    }
    FoundSameCriteria(docs, [Criterion(field, a)], [Criterion(field, b)], now);
  }

  lemma {:induction false} FoundSameCriteria(docs: seq<StoredCrime>, c1: seq<Criterion>, c2: seq<Criterion>, now: Timestamp)
    requires forall d :: d in docs ==> MatchesAll(FromDocument(d, now), c1) == MatchesAll(FromDocument(d, now), c2)
    ensures Found(docs, c1, now) == Found(docs, c2, now)
  {
    if docs != [] {
      assert forall d :: d in docs[..|docs| - 1] ==> d in docs;
      FoundSameCriteria(docs[..|docs| - 1], c1, c2, now);
    }
  }

  /**
   * Over an index built from the whole collection, a lookup returns records
   * of the collection that match the value, and every record whose field
   * equals the value up to case is among them.
   */
  lemma LookupSound(docs: seq<StoredCrime>, field: Field, value: string, now: Timestamp)
    ensures var vs := Loaded(docs, now);
      var r := Lookup(IndexOf(vs, field), field, value, docs, false, now);
      && (forall v :: v in r ==> v in vs && Matches(v, field, value))
      && (forall v :: v in vs && Key(v, field) == ToLower(value) ==> v in r)
  {
    var vs := Loaded(docs, now);
    var k := ToLower(value);
    var c := Criterion(field, value);
    var index := IndexOf(vs, field);
    var r := Lookup(index, field, value, docs, false, now);
    BucketMembers(vs, field, k);
    FoundLoaded(docs, [c], now);
    SelectMembers(vs, [c]);
    forall v | v in r ensures v in vs && Matches(v, field, value) {
      if k in index && index[k] != [] {
        assert v in Bucket(vs, field, k);
        ExactMatches(v, field, value);
      } else {
        MatchesOne(v, c);
      }
    }
    forall v | v in vs && Key(v, field) == k ensures v in r {
      if k in index && index[k] != [] {
        assert v in Bucket(vs, field, k);
      } else {
        ExactMatches(v, field, value);
        MatchesOne(v, c);
      }
    }
  }

  // ---- advancedSearch ---------------------------------------------------

  /** A criterion for each argument that is non-null and not blank, with the value trimmed, in the order name, city, crimeType. */
  function Criteria(name: Option<string>, city: Option<string>, crimeType: Option<string>): (cs: seq<Criterion>)
    ensures |cs| <= 3
  {
    Given(Name, name) + Given(City, city) + Given(CrimeType, crimeType)
  }

  function Given(field: Field, arg: Option<string>): (cs: seq<Criterion>)
    ensures cs == [] <==> arg.None? || IsBlank(arg.value)
    ensures cs != [] ==> cs == [Criterion(field, Trim(arg.value))]
  {
    if arg.Some? && !IsBlank(arg.value) then [Criterion(field, Trim(arg.value))] else []
  }

  /** No argument given: nothing to search for. */
  lemma NoCriteria(name: Option<string>, city: Option<string>, crimeType: Option<string>)
    ensures Criteria(name, city, crimeType) == [] <==>
      (name.None? || IsBlank(name.value)) && (city.None? || IsBlank(city.value)) && (crimeType.None? || IsBlank(crimeType.value))
  {
  }

  /** A record satisfies two filters joined together exactly when it satisfies each. */
  lemma MatchesAllAppend(v: CrimeData, a: seq<Criterion>, b: seq<Criterion>)
    ensures MatchesAll(v, a + b) <==> MatchesAll(v, a) && MatchesAll(v, b)
  {
    var cs := a + b;
    if MatchesAll(v, a) && MatchesAll(v, b) {
      forall i | 0 <= i < |cs| ensures Matches(v, cs[i].field, cs[i].value) {
        if i < |a| {
          assert cs[i] == a[i];
        } else {
          assert cs[i] == b[i - |a|];
        }
      }
    }
    if MatchesAll(v, cs) {
      forall i | 0 <= i < |a| ensures Matches(v, a[i].field, a[i].value) {
        assert cs[i] == a[i];
      }
      forall i | 0 <= i < |b| ensures Matches(v, b[i].field, b[i].value) {
        assert cs[|a| + i] == b[i];
      }
    }
  }

  /** A record satisfies the criterion an argument gives exactly when it matches the trimmed argument, if given. */
  lemma MatchesGiven(v: CrimeData, field: Field, arg: Option<string>)
    ensures MatchesAll(v, Given(field, arg)) <==> (arg.Some? && !IsBlank(arg.value) ==> Matches(v, field, Trim(arg.value)))
  {
    if arg.Some? && !IsBlank(arg.value) {
      MatchesOne(v, Criterion(field, Trim(arg.value)));
    }
  }

  /** A record satisfies the criteria exactly when it matches every argument that was given. */
  lemma CriteriaMeaning(v: CrimeData, name: Option<string>, city: Option<string>, crimeType: Option<string>)
    ensures MatchesAll(v, Criteria(name, city, crimeType)) <==>
      && (name.Some? && !IsBlank(name.value) ==> Matches(v, Name, Trim(name.value)))
      && (city.Some? && !IsBlank(city.value) ==> Matches(v, City, Trim(city.value)))
      && (crimeType.Some? && !IsBlank(crimeType.value) ==> Matches(v, CrimeType, Trim(crimeType.value)))
  {
    var a := Given(Name, name);
    var b := Given(City, city);
    var c := Given(CrimeType, crimeType);
    MatchesAllAppend(v, a + b, c);
    MatchesAllAppend(v, a, b);
    MatchesGiven(v, Name, name);
    MatchesGiven(v, City, city);
    MatchesGiven(v, CrimeType, crimeType);
  }

  // ---- the service ------------------------------------------------------

  class SearchService {
    var nameIndex: map<string, seq<CrimeData>>
    var cityIndex: map<string, seq<CrimeData>>
    var crimeTypeIndex: map<string, seq<CrimeData>>

    /** The three indexes are those of the records read so far. */
    ghost predicate IndexesOf(vs: seq<CrimeData>)
      reads this
    {
      && nameIndex == IndexOf(vs, Name)
      && cityIndex == IndexOf(vs, City)
      && crimeTypeIndex == IndexOf(vs, CrimeType)
    }

    /** SearchService(): empty indexes, then a build. */
    constructor (docs: seq<StoredCrime>, failsAt: Option<nat>, now: Timestamp)
      ensures IndexesOf(Loaded(docs[..LoadCount(docs, failsAt)], now))
    {
      nameIndex := map[];
      cityIndex := map[];
      crimeTypeIndex := map[];
      new;
      BuildSearchIndexes(docs, failsAt, now);
    }

    /**
     * buildSearchIndexes: clears the three indexes, then files each record
     * read under its lower-cased name, city and crimeType. A failure at
     * document failsAt stops the build there, keeping what was filed.
     */
    method BuildSearchIndexes(docs: seq<StoredCrime>, failsAt: Option<nat>, now: Timestamp)
      modifies this
      ensures IndexesOf(Loaded(docs[..LoadCount(docs, failsAt)], now))
    {
      nameIndex := map[];
      cityIndex := map[];
      crimeTypeIndex := map[];
      var i := 0;
      while i < |docs|
        invariant i <= LoadCount(docs, failsAt)
        invariant IndexesOf(Loaded(docs[..i], now))
      {
        if failsAt == Some(i) {
          break;
        }
        var crime := FromDocument(docs[i], now);
        assert docs[..i + 1] == docs[..i] + [docs[i]];
        LoadedSnoc(docs[..i], docs[i], now);
        FileRecord(Loaded(docs[..i], now), crime);
        i := i + 1;
      }
    }

    /** One pass of the build loop: the record filed under each of its three keys. */
    method FileRecord(ghost read: seq<CrimeData>, crime: CrimeData)
      requires IndexesOf(read)
      modifies this
      ensures IndexesOf(read + [crime])
    {
      var byName := AddTo(nameIndex, Key(crime, Name), crime);
      var byCity := AddTo(cityIndex, Key(crime, City), crime);
      var byType := AddTo(crimeTypeIndex, Key(crime, CrimeType), crime);
      Filed(read, crime, Name, nameIndex, byName);
      Filed(read, crime, City, cityIndex, byCity);
      Filed(read, crime, CrimeType, crimeTypeIndex, byType);
      nameIndex, cityIndex, crimeTypeIndex := byName, byCity, byType;
    }

    /** rebuildIndexes: a fresh build. */
    method RebuildIndexes(docs: seq<StoredCrime>, failsAt: Option<nat>, now: Timestamp)
      modifies this
      ensures IndexesOf(Loaded(docs[..LoadCount(docs, failsAt)], now))
    {
      BuildSearchIndexes(docs, failsAt, now);
    }

    /** searchByName. */
    method SearchByName(name: string, docs: seq<StoredCrime>, storeFails: bool, now: Timestamp) returns (results: seq<CrimeData>)
      ensures results == Lookup(nameIndex, Name, name, docs, storeFails, now)
    {
      results := SearchIndexed(nameIndex, Name, name, docs, storeFails, now);
    }

    /** searchByCity. */
    method SearchByCity(city: string, docs: seq<StoredCrime>, storeFails: bool, now: Timestamp) returns (results: seq<CrimeData>)
      ensures results == Lookup(cityIndex, City, city, docs, storeFails, now)
    {
      results := SearchIndexed(cityIndex, City, city, docs, storeFails, now);
    }

    /** searchByCrimeType. */
    method SearchByCrimeType(crimeType: string, docs: seq<StoredCrime>, storeFails: bool, now: Timestamp)
      returns (results: seq<CrimeData>)
      ensures results == Lookup(crimeTypeIndex, CrimeType, crimeType, docs, storeFails, now)
    {
      results := SearchIndexed(crimeTypeIndex, CrimeType, crimeType, docs, storeFails, now);
    }

    /** The shared shape of the three indexed searches: the bucket when it is non-empty, else the store. */
    static method SearchIndexed(index: map<string, seq<CrimeData>>, field: Field, value: string,
                                docs: seq<StoredCrime>, storeFails: bool, now: Timestamp) returns (results: seq<CrimeData>)
      ensures results == Lookup(index, field, value, docs, storeFails, now)
    {
      var key := ToLower(value);
      if key in index && index[key] != [] {
        return index[key];
      }
      results := SearchInDatabase(field, value, docs, storeFails, now);
    }

    /** searchByDetails: always the store, never an index. */
    method SearchByDetails(details: string, docs: seq<StoredCrime>, storeFails: bool, now: Timestamp)
      returns (results: seq<CrimeData>)
      ensures results == DatabaseSearch(docs, Details, details, storeFails, now)
    {
      results := SearchInDatabase(Details, details, docs, storeFails, now);
    }

    /** searchInDatabase: one record per document the case-insensitive find yields; none when the store throws. */
    static method SearchInDatabase(field: Field, value: string, docs: seq<StoredCrime>, storeFails: bool, now: Timestamp)
      returns (results: seq<CrimeData>)
      ensures results == DatabaseSearch(docs, field, value, storeFails, now)
    {
      if storeFails {
        return [];
      }
      results := ReadAll(Found(docs, [Criterion(field, value)], now), now);
    }

    /** The cursor loop: documentToCrime for each document found, in order. */
    static method ReadAll(found: seq<StoredCrime>, now: Timestamp) returns (results: seq<CrimeData>)
      ensures results == Loaded(found, now)
    {
      results := [];
      var i := 0;
      while i < |found|
        invariant i <= |found|
        invariant results == Loaded(found[..i], now)
      {
        assert Loaded(found[..i + 1], now) == results + [FromDocument(found[i], now)];
        results := results + [FromDocument(found[i], now)];
        i := i + 1;
      }
      assert found[..i] == found;
    }

    /**
     * advancedSearch: one criterion per given argument; with none it returns
     * nothing without a query, otherwise the records matching them all, or
     * nothing when the store throws.
     */
    method AdvancedSearch(name: Option<string>, city: Option<string>, crimeType: Option<string>,
                          docs: seq<StoredCrime>, storeFails: bool, now: Timestamp) returns (results: seq<CrimeData>)
      ensures Criteria(name, city, crimeType) == [] || storeFails ==> results == []
      ensures Criteria(name, city, crimeType) != [] && !storeFails ==>
        results == Loaded(Found(docs, Criteria(name, city, crimeType), now), now)
    {
      var filters := Filters(name, city, crimeType);
      if filters == [] {
        return [];
      }
      if storeFails {
        return [];
      }
      results := ReadAll(Found(docs, filters, now), now);
    }

    /** The filter list advancedSearch builds, one criterion per given argument. */
    static method Filters(name: Option<string>, city: Option<string>, crimeType: Option<string>)
      returns (filters: seq<Criterion>)
      ensures filters == Criteria(name, city, crimeType)
    {
      filters := [];
      filters := AddIfGiven(filters, Name, name);
      assert filters == Given(Name, name);
      filters := AddIfGiven(filters, City, city);
      filters := AddIfGiven(filters, CrimeType, crimeType);
    }

    /** One `if (arg != null && !arg.trim().isEmpty()) filters.add(...)` of advancedSearch. */
    static method AddIfGiven(filters: seq<Criterion>, field: Field, arg: Option<string>) returns (r: seq<Criterion>)
      ensures r == filters + Given(field, arg)
    {
      r := filters;
      if arg.Some? && !IsBlank(arg.value) {
        r := r + [Criterion(field, Trim(arg.value))];
      }
    }

    /** getCrimeStatistics: each crime type key with the size of its bucket. */
    method GetCrimeStatistics() returns (stats: map<string, int>)
      ensures stats == Sizes(crimeTypeIndex)
    {
      stats := map[];
      var pending := crimeTypeIndex.Keys;
      while pending != {}
        invariant pending <= crimeTypeIndex.Keys
        invariant stats.Keys == crimeTypeIndex.Keys - pending
        invariant forall k :: k in stats ==> stats[k] == |crimeTypeIndex[k]|
        decreases pending
      {
        var k :| k in pending;
        stats := stats[k := |crimeTypeIndex[k]|];
        pending := pending - {k};
      }
    }
  }

  /** After a build that completes, the statistics add up to the number of records read. */
  lemma StatisticsTotal(s: SearchService, docs: seq<StoredCrime>, now: Timestamp)
    requires s.IndexesOf(Loaded(docs, now))
    ensures Sum(Sizes(s.crimeTypeIndex)) == |docs|
  {
    IndexCounts(Loaded(docs, now), CrimeType);
  }
}
