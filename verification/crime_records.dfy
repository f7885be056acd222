/**
 * Value-level specification of the record store: what the in-memory list
 * holds relative to the crimes collection, and what add, edit, delete and
 * load do to it.
 */
module CrimeRecords {
  import opened Wrappers
  import opened JavaText
  import opened Crimes

  /** The ids of the records, in order. */
  function Ids(vs: seq<CrimeData>): (ids: seq<Option<string>>)
    ensures |ids| == |vs|
    ensures forall i {:trigger ids[i]} :: 0 <= i < |vs| ==> ids[i] == vs[i].id
  {
    seq(|vs|, i requires 0 <= i < |vs| => vs[i].id)
  }

  /** No two records carry the same id. */
  predicate DistinctIds(vs: seq<CrimeData>) {
    var ids := Ids(vs);
    forall i, j :: 0 <= i < j < |ids| ==> ids[i] != ids[j]
  }

  /** Every record in memory has an id, its document exists and agrees with it, and ids are distinct. */
  predicate Mirrors(vs: seq<CrimeData>, store: map<string, CrimeDoc>) {
    && (forall i :: 0 <= i < |vs| ==> vs[i].id.Some? && vs[i].id.value in store && Agrees(vs[i], store[vs[i].id.value]))
    && DistinctIds(vs)
  }

  predicate HasRecord(vs: seq<CrimeData>, id: string) {
    exists i :: 0 <= i < |vs| && vs[i].id == Some(id)
  }

  /** Every stored document has its record in memory. */
  predicate Complete(vs: seq<CrimeData>, store: map<string, CrimeDoc>) {
    forall k :: k in store ==> HasRecord(vs, k)
  }

  /** The store's keys are ids as ObjectId.toString writes them. */
  predicate CanonicalKeys(store: map<string, CrimeDoc>) {
    forall k :: k in store ==> IsCanonicalId(k)
  }

  /** A complete mirror holds exactly one record per stored document. */
  lemma {:induction false} MirrorCount(vs: seq<CrimeData>, store: map<string, CrimeDoc>)
    requires Mirrors(vs, store) && Complete(vs, store)
    ensures |vs| == |store|
  {
    if vs == [] {
      assert forall k :: k !in store;
      assert store == map[];
    } else {
      var last := vs[|vs| - 1];
      var rest := vs[..|vs| - 1];
      var id := last.id.value;
      var smaller := store - {id};
      assert Mirrors(rest, smaller) by {
        forall i | 0 <= i < |rest|
          ensures rest[i].id.Some? && rest[i].id.value in smaller
        {
          assert rest[i] == vs[i] && Ids(vs)[i] != Ids(vs)[|vs| - 1];
        }
        assert Ids(rest) == Ids(vs)[..|vs| - 1];
      }
      assert Complete(rest, smaller) by {
        forall k | k in smaller ensures HasRecord(rest, k) {
          assert HasRecord(vs, k);
          var i :| 0 <= i < |vs| && vs[i].id == Some(k);
          assert i != |vs| - 1;
          assert rest[i].id == Some(k);
        }
      }
      MirrorCount(rest, smaller);
    }
  }

  // ---- load -------------------------------------------------------------

  /** What a find() over the collection yields: every stored document exactly once. */
  predicate IsQueryResult(store: map<string, CrimeDoc>, found: seq<StoredCrime>) {
    && (forall i :: 0 <= i < |found| ==> found[i].id in store && store[found[i].id] == found[i].doc)
    && (forall i, j :: 0 <= i < j < |found| ==> found[i].id != found[j].id)
    && (forall k :: k in store ==> exists i :: 0 <= i < |found| && found[i].id == k)
  }

  /** The records documentToCrime builds from a sequence of documents, in the same order. */
  function Loaded(found: seq<StoredCrime>, now: Timestamp): (vs: seq<CrimeData>)
    ensures |vs| == |found|
    ensures forall i :: 0 <= i < |found| ==> vs[i] == FromDocument(found[i], now)
  {
    seq(|found|, i requires 0 <= i < |found| => FromDocument(found[i], now))
  }

  /** How many documents a load reads before the cursor throws (at failsAt) or runs out. */
  function LoadCount(found: seq<StoredCrime>, failsAt: Option<nat>): (n: nat)
    ensures n <= |found|
    ensures failsAt.None? ==> n == |found|
  {
    if failsAt.Some? && failsAt.value < |found| then failsAt.value else |found|
  }

  /** Reading one more document appends its record. */
  lemma LoadedSnoc(found: seq<StoredCrime>, d: StoredCrime, now: Timestamp)
    ensures Loaded(found + [d], now) == Loaded(found, now) + [FromDocument(d, now)]
  {
  }

  /** Any prefix of a query result, loaded, mirrors the store; the whole result is complete. */
  lemma LoadedMirrors(store: map<string, CrimeDoc>, found: seq<StoredCrime>, n: nat, now: Timestamp)
    requires IsQueryResult(store, found) && n <= |found|
    ensures Mirrors(Loaded(found[..n], now), store)
    ensures n == |found| ==> Complete(Loaded(found[..n], now), store)
  {
    var vs := Loaded(found[..n], now);
    forall i | 0 <= i < |vs| ensures vs[i].id.Some? && vs[i].id.value in store && Agrees(vs[i], store[vs[i].id.value]) {
      assert found[..n][i] == found[i];
      FromDocumentAgrees(found[i], now);
    }
    forall i, j | 0 <= i < j < |vs| ensures vs[i].id != vs[j].id {
      assert found[..n][i] == found[i] && found[..n][j] == found[j];
    }
    if n == |found| {
      assert found[..n] == found;
      forall k | k in store ensures HasRecord(vs, k) {
        var i :| 0 <= i < |found| && found[i].id == k;
        assert vs[i].id == Some(k);
      }
    }
  }

  /**
   * Documents in the order of Sorts.descending("createdAt"): a dated document
   * never follows an older one, and an undated one, which sorts lowest,
   * follows every dated one.
   */
  predicate NewestFirst(found: seq<StoredCrime>) {
    forall i, j :: 0 <= i < j < |found| && found[j].doc.createdAt.Some? ==>
      found[i].doc.createdAt.Some? && found[j].doc.createdAt.value <= found[i].doc.createdAt.value
  }

  /**
   * After a load of newest-first documents whose last one is dated, every
   * record is dated and the last record pushed, the top of the stack, is the
   * oldest one.
   */
  lemma LoadedTopIsOldest(found: seq<StoredCrime>, now: Timestamp)
    requires NewestFirst(found)
    ensures var vs := Loaded(found, now);
      found != [] && found[|found| - 1].doc.createdAt.Some? ==>
        forall i :: 0 <= i < |vs| ==> vs[i].createdAt.Some? && vs[|vs| - 1].createdAt.value <= vs[i].createdAt.value
  {
    var vs := Loaded(found, now);
    if found != [] && found[|found| - 1].doc.createdAt.Some? {
      var last := |found| - 1;
      forall i | 0 <= i < |vs| ensures vs[i].createdAt.Some? && vs[last].createdAt.value <= vs[i].createdAt.value {
        if i < last {
          assert found[i].doc.createdAt.Some? && found[last].doc.createdAt.value <= found[i].doc.createdAt.value;
        }
      }
    }
  }

  /**
   * When any document is undated, the last one is, so the top of the stack
   * is a record stamped with the load time rather than the oldest one.
   */
  lemma LoadedUndatedOnTop(found: seq<StoredCrime>, k: int, now: Timestamp)
    requires NewestFirst(found) && 0 <= k < |found| && found[k].doc.createdAt.None?
    ensures Loaded(found, now)[|found| - 1].createdAt == Some(now)
  {
  }

  /**
   * Documents in the order of Sorts.ascending("createdAt"): undated ones,
   * which sort lowest, come first, and a dated document never precedes an
   * older one.
   */
  predicate OldestFirst(found: seq<StoredCrime>) {
    forall i, j :: 0 <= i < j < |found| && found[i].doc.createdAt.Some? ==>
      found[j].doc.createdAt.Some? && found[i].doc.createdAt.value <= found[j].doc.createdAt.value
  }

  /**
   * A load of oldest-first documents puts the newest dated record on top of
   * the stack, so popping lists the latest record first; when the top
   * document is undated, every document is, and all records carry the load
   * time.
   */
  lemma LoadedAscendingTopIsNewest(found: seq<StoredCrime>, now: Timestamp)
    requires OldestFirst(found)
    ensures var vs := Loaded(found, now);
      found != [] ==>
        && vs[|vs| - 1].createdAt.Some?
        && (forall i :: 0 <= i < |vs| && found[i].doc.createdAt.Some? ==>
              vs[i].createdAt.value <= vs[|vs| - 1].createdAt.value)
        && (found[|found| - 1].doc.createdAt.None? ==> forall i :: 0 <= i < |vs| ==> vs[i].createdAt == Some(now))
  {
    var vs := Loaded(found, now);
    if found != [] {
      var last := |found| - 1;
      forall i | 0 <= i < |vs| && found[i].doc.createdAt.Some?
        ensures vs[i].createdAt.value <= vs[last].createdAt.value
      {
        if i < last {
          assert found[last].doc.createdAt.Some? && found[i].doc.createdAt.value <= found[last].doc.createdAt.value;
        }
      }
      if found[last].doc.createdAt.None? {
        forall i | 0 <= i < |vs| ensures vs[i].createdAt == Some(now) {
          assert found[i].doc.createdAt.None? || i == last;
        }
      }
    }
  }

  // ---- add --------------------------------------------------------------

  /** Appending the record of a newly inserted document keeps the mirror, and completeness. */
  lemma AddKeepsMirror(vs: seq<CrimeData>, store: map<string, CrimeDoc>, id: string, doc: CrimeDoc, v: CrimeData)
    requires Mirrors(vs, store) && id !in store
    requires v.id == Some(id) && Agrees(v, doc)
    ensures Mirrors(vs + [v], store[id := doc])
    ensures Complete(vs, store) ==> Complete(vs + [v], store[id := doc])
  {
    var ws := vs + [v];
    forall i, j | 0 <= i < j < |ws| ensures Ids(ws)[i] != Ids(ws)[j] {
      assert ws[i] == vs[i];
      if j < |vs| {
        assert Ids(vs)[i] != Ids(vs)[j];
      }
    }
    if Complete(vs, store) {
      forall k | k in store[id := doc] ensures HasRecord(ws, k) {
        if k == id {
          assert ws[|vs|].id == Some(k);
        } else {
          var i :| 0 <= i < |vs| && vs[i].id == Some(k);
          assert ws[i] == vs[i];
        }
      }
    }
  }

  // ---- edit -------------------------------------------------------------

  /** The stored document after a $set of the five fields. */
  function UpdatedDoc(d: CrimeDoc, f: CrimeFields): (r: CrimeDoc)
    ensures DocFields(r) == f && r.createdAt == d.createdAt
  {
    d.(name := f.name, city := f.city, crimeType := f.crimeType, details := f.details, photoPath := f.photoPath)
  }

  /** Every record with the given id takes the new fields; the rest stay as they were, in place. */
  function EditValues(vs: seq<CrimeData>, id: string, f: CrimeFields): (r: seq<CrimeData>)
    ensures |r| == |vs|
    ensures forall i :: 0 <= i < |vs| && vs[i].id == Some(id) ==> r[i] == WithFields(vs[i], f)
    ensures forall i :: 0 <= i < |vs| && vs[i].id != Some(id) ==> r[i] == vs[i]
  {
    seq(|vs|, i requires 0 <= i < |vs| => if vs[i].id == Some(id) then WithFields(vs[i], f) else vs[i])
  }

  /** The position of the first record with the id, or the length when none has it. */
  function FirstWithId(vs: seq<CrimeData>, id: string): (k: nat)
    ensures k <= |vs|
    ensures forall j :: 0 <= j < k ==> vs[j].id != Some(id)
    ensures k < |vs| ==> vs[k].id == Some(id)
    ensures k == |vs| <==> !HasRecord(vs, id)
  {
    if vs == [] then 0
    else if vs[0].id == Some(id) then 0
    else
      var k := 1 + FirstWithId(vs[1..], id);
      assert forall j :: 1 <= j < |vs| ==> vs[1..][j - 1] == vs[j];
      k
  }

  /** Editing an id keeps every record's id and creation time. */
  lemma EditKeepsIdentity(vs: seq<CrimeData>, id: string, f: CrimeFields)
    ensures forall i :: 0 <= i < |vs| ==>
      EditValues(vs, id, f)[i].id == vs[i].id && EditValues(vs, id, f)[i].createdAt == vs[i].createdAt
  {
  }

  /** Editing a stored id in memory and in the store keeps the mirror. */
  lemma EditKeepsMirror(vs: seq<CrimeData>, store: map<string, CrimeDoc>, id: string, f: CrimeFields)
    requires Mirrors(vs, store) && id in store
    ensures Mirrors(EditValues(vs, id, f), store[id := UpdatedDoc(store[id], f)])
  {
    var ws := EditValues(vs, id, f);
    var st := store[id := UpdatedDoc(store[id], f)];
    forall i | 0 <= i < |ws| ensures ws[i].id.Some? && ws[i].id.value in st && Agrees(ws[i], st[ws[i].id.value]) {
      assert ws[i].id == vs[i].id;
    }
    assert Ids(ws) == Ids(vs);
  }

  /** Editing a stored id keeps every stored document's record in memory. */
  lemma EditKeepsComplete(vs: seq<CrimeData>, store: map<string, CrimeDoc>, id: string, f: CrimeFields)
    requires Complete(vs, store) && id in store
    ensures Complete(EditValues(vs, id, f), store[id := UpdatedDoc(store[id], f)])
  {
    var ws := EditValues(vs, id, f);
    forall k | k in store ensures HasRecord(ws, k) {
      var i :| 0 <= i < |vs| && vs[i].id == Some(k);
      assert ws[i].id == Some(k);
    }
  }

  // ---- delete -----------------------------------------------------------

  /** removeIf: the records without the given id, in their original order. */
  function RemoveValues(vs: seq<CrimeData>, id: string): (r: seq<CrimeData>)
    ensures |r| <= |vs|
  {
    if vs == [] then []
    else
      var last := vs[|vs| - 1];
      var rest := RemoveValues(vs[..|vs| - 1], id);
      if last.id == Some(id) then rest else rest + [last]
  }

  /** Removal drops exactly the records with the id: the survivors are the others. */
  lemma {:induction false} RemoveValuesMembers(vs: seq<CrimeData>, id: string)
    ensures forall i :: 0 <= i < |RemoveValues(vs, id)| ==> RemoveValues(vs, id)[i].id != Some(id)
    ensures forall v :: v in RemoveValues(vs, id) <==> v in vs && v.id != Some(id)
  {
    if vs != [] {
      RemoveValuesMembers(vs[..|vs| - 1], id);
      assert vs == vs[..|vs| - 1] + [vs[|vs| - 1]];
    }
  }

  /** Removal keeps survivors in order: the result is what is left after dropping the removed positions. */
  lemma {:induction false} RemoveValuesKeepsOrder(vs: seq<CrimeData>, id: string, i: int, j: int)
    requires 0 <= i < j < |vs| && vs[i].id != Some(id) && vs[j].id != Some(id)
    ensures exists p, q :: 0 <= p < q < |RemoveValues(vs, id)| && RemoveValues(vs, id)[p] == vs[i] && RemoveValues(vs, id)[q] == vs[j]
  {
    var rest := vs[..|vs| - 1];
    var r := RemoveValues(rest, id);
    if j < |vs| - 1 {
      RemoveValuesKeepsOrder(rest, id, i, j);
      var p, q :| 0 <= p < q < |r| && r[p] == rest[i] && r[q] == rest[j];
      assert RemoveValues(vs, id)[p] == vs[i] && RemoveValues(vs, id)[q] == vs[j];
    } else {
      assert vs[i] == rest[i] && vs[i] in rest;
      RemoveValuesMembers(rest, id);
      var p :| 0 <= p < |r| && r[p] == vs[i];
      assert RemoveValues(vs, id) == r + [vs[j]];
      assert RemoveValues(vs, id)[p] == vs[i] && RemoveValues(vs, id)[|r|] == vs[j];
    }
  }

  /** When ids are distinct, removing a present id removes exactly one record. */
  lemma {:induction false} RemoveValuesCount(vs: seq<CrimeData>, id: string)
    requires DistinctIds(vs)
    ensures HasRecord(vs, id) ==> |RemoveValues(vs, id)| == |vs| - 1
    ensures !HasRecord(vs, id) ==> RemoveValues(vs, id) == vs
  {
    if vs != [] {
      var rest := vs[..|vs| - 1];
      assert Ids(rest) == Ids(vs)[..|vs| - 1];
      RemoveValuesCount(rest, id);
      assert vs == rest + [vs[|vs| - 1]];
      if vs[|vs| - 1].id == Some(id) {
        forall k | 0 <= k < |rest| ensures rest[k].id != Some(id) {
          assert Ids(vs)[k] != Ids(vs)[|vs| - 1];
        }
      } else {
        assert HasRecord(vs, id) ==> HasRecord(rest, id);
      }
    }
  }

  /** Deleting an id from memory and from the store keeps the mirror, and completeness. */
  lemma RemoveKeepsMirror(vs: seq<CrimeData>, store: map<string, CrimeDoc>, id: string)
    requires Mirrors(vs, store)
    ensures Mirrors(RemoveValues(vs, id), store - {id})
  {
    var ws := RemoveValues(vs, id);
    RemoveDistinct(vs, id);
    RemoveValuesMembers(vs, id);
    forall i | 0 <= i < |ws| ensures ws[i].id.Some? && ws[i].id.value in store - {id} && Agrees(ws[i], (store - {id})[ws[i].id.value]) {
      assert ws[i] in vs;
    }
  }

  /** Deleting a document and its record keeps memory complete. */
  lemma RemoveKeepsComplete(vs: seq<CrimeData>, store: map<string, CrimeDoc>, id: string)
    requires Complete(vs, store)
    ensures Complete(RemoveValues(vs, id), store - {id})
  {
    var ws := RemoveValues(vs, id);
    RemoveValuesMembers(vs, id);
    forall k | k in store - {id} ensures HasRecord(ws, k) {
      var i :| 0 <= i < |vs| && vs[i].id == Some(k);
      assert vs[i] in ws;
      var p :| 0 <= p < |ws| && ws[p] == vs[i];
    }
  }

  lemma {:induction false} RemoveDistinct(vs: seq<CrimeData>, id: string)
    requires DistinctIds(vs)
    ensures DistinctIds(RemoveValues(vs, id))
  {
    if vs != [] {
      var rest := vs[..|vs| - 1];
      assert Ids(rest) == Ids(vs)[..|vs| - 1];
      RemoveDistinct(rest, id);
      var last := vs[|vs| - 1];
      var r := RemoveValues(rest, id);
      if last.id != Some(id) {
        RemoveValuesMembers(rest, id);
        var ws := r + [last];
        forall i, j | 0 <= i < j < |ws| ensures Ids(ws)[i] != Ids(ws)[j] {
          assert ws[i] == r[i];
          if j < |r| {
            assert Ids(r)[i] != Ids(r)[j];
          } else {
            assert r[i] in rest;
            var k :| 0 <= k < |rest| && rest[k] == r[i];
            assert Ids(vs)[k] != Ids(vs)[|vs| - 1];
          }
        }
      }
    }
  }

  // ---- the stack's order ------------------------------------------------

  /** The elements of s from last to first: the order in which a stack pops them. */
  function Reverse<T>(s: seq<T>): (r: seq<T>)
    ensures |r| == |s|
    ensures forall i :: 0 <= i < |s| ==> r[i] == s[|s| - 1 - i]
  {
    if s == [] then [] else Reverse(s[1..]) + [s[0]]
  }

  /** Taking one more element of a sequence appends it. */
  lemma PrefixStep<T>(s: seq<T>, n: int)
    requires 0 <= n < |s|
    ensures s[..n + 1] == s[..n] + [s[n]]
  {
  }

  /** Popping the element below a suffix extends its reversal by that element. */
  lemma ReverseStep<T>(s: seq<T>, m: int)
    requires 0 < m <= |s|
    ensures Reverse(s[m - 1..]) == Reverse(s[m..]) + [s[m - 1]]
  {
    assert s[m - 1..][1..] == s[m..];
  }

  /** Reversal is its own inverse: reading the popped order back restores the stack. */
  lemma ReverseReverse<T>(s: seq<T>)
    ensures Reverse(Reverse(s)) == s
  {
  }

  // ---- the in-memory id comparison, as written ----------------------------

  /**
   * editCrime as written: the document is found by the parsed ObjectId, whose
   * text is lower-case, while updateInMemoryStructures edits the records
   * whose id equals the string the caller passed, case-sensitively. For an
   * id typed in lower case the two agree.
   */
  function EditAsWritten(vs: seq<CrimeData>, store: map<string, CrimeDoc>, crimeId: string, f: CrimeFields)
    : (r: (seq<CrimeData>, map<string, CrimeDoc>))
    requires ParseObjectId(crimeId).Some? && ParseObjectId(crimeId).value in store
    ensures var oid := ParseObjectId(crimeId).value;
      r.1 == store[oid := UpdatedDoc(store[oid], f)]
    ensures r.0 == EditValues(vs, crimeId, f)
    ensures IsCanonicalId(crimeId) ==> r.0 == EditValues(vs, ParseObjectId(crimeId).value, f)
  {
    var oid := ParseObjectId(crimeId).value;
    assert IsCanonicalId(crimeId) ==> oid == crimeId by {
      if IsCanonicalId(crimeId) {
        CanonicalIdParses(crimeId);
      }
    }
    (EditValues(vs, crimeId, f), store[oid := UpdatedDoc(store[oid], f)])
  }

  /**
   * deleteCrime as written: the document is deleted by the parsed ObjectId,
   * while removeFromInMemoryStructures drops the records whose id equals the
   * string the caller passed. For an id typed in lower case the two agree.
   */
  function RemoveAsWritten(vs: seq<CrimeData>, store: map<string, CrimeDoc>, crimeId: string)
    : (r: (seq<CrimeData>, map<string, CrimeDoc>))
    requires ParseObjectId(crimeId).Some? && ParseObjectId(crimeId).value in store
    ensures r.1 == store - {ParseObjectId(crimeId).value}
    ensures r.0 == RemoveValues(vs, crimeId)
    ensures IsCanonicalId(crimeId) ==> r.0 == RemoveValues(vs, ParseObjectId(crimeId).value)
  {
    var oid := ParseObjectId(crimeId).value;
    assert IsCanonicalId(crimeId) ==> oid == crimeId by {
      if IsCanonicalId(crimeId) {
        CanonicalIdParses(crimeId);
      }
    }
    (RemoveValues(vs, crimeId), store - {oid})
  }

  /**
   * For every id not in canonical form whose record is in memory, editing it
   * as written to new fields leaves that record as it was while its document
   * changes: memory no longer mirrors the store.
   */
  lemma EditAsWrittenDrifts(vs: seq<CrimeData>, store: map<string, CrimeDoc>, crimeId: string, f: CrimeFields)
    requires Mirrors(vs, store)
    requires ParseObjectId(crimeId).Some? && ParseObjectId(crimeId).value in store
    requires !IsCanonicalId(crimeId) && HasRecord(vs, ParseObjectId(crimeId).value)
    requires f != DocFields(store[ParseObjectId(crimeId).value])
    ensures var r := EditAsWritten(vs, store, crimeId, f);
      !Mirrors(r.0, r.1)
  {
    var oid := ParseObjectId(crimeId).value;
    var r := EditAsWritten(vs, store, crimeId, f);
    var i :| 0 <= i < |vs| && vs[i].id == Some(oid);
    assert oid != crimeId;
    assert r.0[i] == vs[i];
    assert DocFields(r.1[oid]) == f;
    assert !Agrees(r.0[i], r.1[oid]);
  }

  /**
   * For every id not in canonical form whose record is in memory, deleting it
   * as written removes the document but keeps the record, which then names a
   * document that does not exist: memory no longer mirrors the store.
   */
  lemma RemoveAsWrittenDrifts(vs: seq<CrimeData>, store: map<string, CrimeDoc>, crimeId: string)
    requires Mirrors(vs, store)
    requires ParseObjectId(crimeId).Some? && ParseObjectId(crimeId).value in store
    requires !IsCanonicalId(crimeId) && HasRecord(vs, ParseObjectId(crimeId).value)
    ensures var r := RemoveAsWritten(vs, store, crimeId);
      !Mirrors(r.0, r.1)
  {
    var oid := ParseObjectId(crimeId).value;
    var r := RemoveAsWritten(vs, store, crimeId);
    var i :| 0 <= i < |vs| && vs[i].id == Some(oid);
    assert oid != crimeId;
    RemoveValuesMembers(vs, crimeId);
    assert vs[i] in r.0;
    var p :| 0 <= p < |r.0| && r.0[p] == vs[i];
    assert oid !in r.1;
  }

  /** An id as ObjectId.toString writes it, and the same id typed in upper case. */
  const SampleId: string := seq(24, _ => 'a')
  const SampleIdUpper: string := seq(24, _ => 'A')

  /** A one-record store that memory mirrors. */
  const SampleDoc: CrimeDoc := CrimeDoc("Theft", "Chennai", "Robbery", "Bike stolen", "", Some(0))
  const SampleRecord: CrimeData := CrimeData(Some(SampleId), "Theft", "Chennai", "Robbery", "Bike stolen", "", Some(0))

  lemma SampleIdParses()
    ensures ParseObjectId(SampleIdUpper) == Some(SampleId)
    ensures SampleId != SampleIdUpper
  {
    assert Validation.IsHexId(SampleIdUpper);
    assert ToLower(SampleIdUpper) == SampleId;
    assert SampleId[0] != SampleIdUpper[0];
  }

  lemma SampleMirrors()
    ensures Mirrors([SampleRecord], map[SampleId := SampleDoc])
  {
    assert Ids([SampleRecord]) == [Some(SampleId)];
  }

  /**
   * Editing the sample record through its upper-case id changes the stored
   * document but not the record in memory, so memory no longer mirrors the
   * store.
   */
  lemma UpperCaseEditDrifts()
    ensures ParseObjectId(SampleIdUpper) == Some(SampleId) &&
      var f := CrimeFields("Fraud", "Chennai", "Robbery", "Bike stolen", "");
      var r := EditAsWritten([SampleRecord], map[SampleId := SampleDoc], SampleIdUpper, f);
      && Mirrors([SampleRecord], map[SampleId := SampleDoc])
      && !Mirrors(r.0, r.1)
  {
    SampleIdParses();
    SampleMirrors();
    var f := CrimeFields("Fraud", "Chennai", "Robbery", "Bike stolen", "");
    var r := EditAsWritten([SampleRecord], map[SampleId := SampleDoc], SampleIdUpper, f);
    assert r.0[0] == SampleRecord;
    assert r.1[SampleId].name == "Fraud";
    assert !Agrees(r.0[0], r.1[SampleId]);
  }

  /**
   * Deleting the sample record through its upper-case id removes the
   * document but keeps the record in memory, which then names a document
   * that does not exist.
   */
  lemma UpperCaseDeleteDrifts()
    ensures ParseObjectId(SampleIdUpper) == Some(SampleId) &&
      var r := RemoveAsWritten([SampleRecord], map[SampleId := SampleDoc], SampleIdUpper);
      && Mirrors([SampleRecord], map[SampleId := SampleDoc])
      && !Mirrors(r.0, r.1)
  {
    SampleIdParses();
    SampleMirrors();
    var r := RemoveAsWritten([SampleRecord], map[SampleId := SampleDoc], SampleIdUpper);
    assert RemoveValues([SampleRecord], SampleIdUpper) == [SampleRecord];
    assert SampleId !in r.1;
  }
}
