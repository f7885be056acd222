/**
 * CrimeService and the shared holder it registers with. The crimes
 * collection is the map `store`; the ArrayList and the Stack are sequences
 * of the same Crime objects, the stack read from bottom to top.
 */
module CrimeServices {
  import opened Wrappers
  import opened Crimes
  import opened CrimeRecords

  /** The notifier; what it sends to web clients is not modelled, only how many updates it announced. */
  class WebSocketService {
    ghost var sent: nat

    constructor ()
      ensures sent == 0
    {
      sent := 0;
    }

    /** notifyCrimeUpdate: one more update announced. */
    method NotifyCrimeUpdate()
      modifies this
      ensures sent == old(sent) + 1
    {
      sent := sent + 1;
    }
  }

  /** SharedServiceHolder: two slots through which the console and the web side share services. */
  class SharedServiceHolder {
    var webSocketService: WebSocketService?
    var crimeService: CrimeService?

    /** Both slots start empty. */
    constructor ()
      ensures webSocketService == null && crimeService == null
    {
      webSocketService := null;
      crimeService := null;
    }

    /** setWebSocketService: the getter returns this service from now on; the other slot is untouched. */
    method SetWebSocketService(service: WebSocketService?)
      modifies this
      ensures webSocketService == service && crimeService == old(crimeService)
      ensures GetWebSocketService() == service && GetCrimeService() == old(GetCrimeService())
    {
      webSocketService := service;
    }

    /** setCrimeService: the getter returns this service from now on, the last writer winning; the other slot is untouched. */
    method SetCrimeService(service: CrimeService?)
      modifies this
      ensures crimeService == service && webSocketService == old(webSocketService)
      ensures GetCrimeService() == service && GetWebSocketService() == old(GetWebSocketService())
    {
      crimeService := service;
    }

    function GetWebSocketService(): WebSocketService?
      reads this
    {
      webSocketService
    }

    function GetCrimeService(): CrimeService?
      reads this
    {
      crimeService
    }
  }

  /** The values of a sequence of records, in order. */
  function ValuesOf(cs: seq<Crime>): (vs: seq<CrimeData>)
    reads cs
    ensures |vs| == |cs|
    ensures forall i :: 0 <= i < |cs| ==> vs[i] == cs[i].Value()
  {
    seq(|cs|, i requires 0 <= i < |cs| reads cs => cs[i].Value())
  }

  predicate DistinctObjects(cs: seq<Crime>) {
    forall i, j :: 0 <= i < j < |cs| ==> cs[i] != cs[j]
  }

  /** Records with distinct ids are distinct objects: a mirrored list never holds one record twice. */
  lemma MirrorsDistinctObjects(cs: seq<Crime>, store: map<string, CrimeDoc>)
    requires Mirrors(ValuesOf(cs), store)
    ensures DistinctObjects(cs)
  {
    forall i, j | 0 <= i < j < |cs| ensures cs[i] != cs[j] {
      assert Ids(ValuesOf(cs))[i] != Ids(ValuesOf(cs))[j];
    }
  }

  /** removeIf over the objects: those whose id is not the given one, in order. */
  function WithoutId(cs: seq<Crime>, id: string): (r: seq<Crime>)
    reads cs
  {
    if cs == [] then []
    else
      var rest := WithoutId(cs[..|cs| - 1], id);
      if cs[|cs| - 1].id == Some(id) then rest else rest + [cs[|cs| - 1]]
  }

  /** The values of the surviving objects are the surviving values. */
  lemma {:induction false} WithoutIdValues(cs: seq<Crime>, id: string)
    ensures ValuesOf(WithoutId(cs, id)) == RemoveValues(ValuesOf(cs), id)
  {
    if cs != [] {
      var rest := cs[..|cs| - 1];
      WithoutIdValues(rest, id);
      assert ValuesOf(cs)[..|cs| - 1] == ValuesOf(rest);
    }
  }

  lemma {:induction false} WithoutIdSubset(cs: seq<Crime>, id: string)
    ensures forall c :: c in WithoutId(cs, id) ==> c in cs
  {
    if cs != [] {
      WithoutIdSubset(cs[..|cs| - 1], id);
    }
  }

  /** CrimeService: the crimes collection and its two in-memory views. */
  class CrimeService {
    var store: map<string, CrimeDoc>
    var crimeList: seq<Crime>
    var crimeStack: seq<Crime>
    var webSocketService: WebSocketService?

    /** The values of the listed records, in list order. */
    function Values(): seq<CrimeData>
      reads this`crimeList, crimeList
    {
      ValuesOf(crimeList)
    }

    /**
     * The stack, read bottom to top, is the list; the store's keys are
     * canonical ids; and memory mirrors the store.
     */
    ghost predicate Valid()
      reads this`crimeList, this`crimeStack, this`store, crimeList
    {
      && crimeStack == crimeList
      && CanonicalKeys(store)
      && Mirrors(Values(), store)
    }

    /**
     * CrimeService(webSocketService): registers itself in the holder unless a
     * service is already there, falls back to the holder's notifier, and
     * loads the collection.
     */
    constructor (holder: SharedServiceHolder, webSocketService: WebSocketService?, store: map<string, CrimeDoc>,
                 found: seq<StoredCrime>, failsAt: Option<nat>, now: Timestamp)
      requires CanonicalKeys(store) && IsQueryResult(store, found)
      modifies holder
      ensures Valid()
      ensures holder.crimeService == (if old(holder.crimeService) == null then this else old(holder.crimeService))
      ensures holder.webSocketService == old(holder.webSocketService)
      ensures this.webSocketService == (if webSocketService != null then webSocketService else old(holder.webSocketService))
      ensures this.store == store
      ensures Values() == Loaded(found[..LoadCount(found, failsAt)], now)
      ensures failsAt.None? ==> Complete(Values(), store)
    {
      this.store := store;
      crimeList := [];
      crimeStack := [];
      this.webSocketService := webSocketService;
      new;
      if holder.GetCrimeService() == null {
        holder.SetCrimeService(this);
      }
      if this.webSocketService == null {
        this.webSocketService := holder.GetWebSocketService();
      }
      LoadCrimesFromDatabase(found, failsAt, now);
    }

    /** setWebSocketService: attaches the notifier and publishes a non-null one in the holder. */
    method SetWebSocketService(webSocketService: WebSocketService?, holder: SharedServiceHolder)
      requires Valid()
      modifies this, holder
      ensures Valid()
      ensures this.webSocketService == webSocketService
      ensures holder.webSocketService == (if webSocketService != null then webSocketService else old(holder.webSocketService))
      ensures holder.crimeService == old(holder.crimeService)
      ensures store == old(store) && crimeList == old(crimeList) && crimeStack == old(crimeStack)
    {
      this.webSocketService := webSocketService;
      if webSocketService != null {
        holder.SetWebSocketService(webSocketService);
      }
    }

    /** documentToCrime: a new Crime holding the document's fields. */
    method DocumentToCrime(doc: StoredCrime, now: Timestamp) returns (crime: Crime)
      ensures fresh(crime)
      ensures crime.Value() == FromDocument(doc, now)
    {
      crime := new Crime.Empty(now);
      crime.SetId(Some(doc.id));
      crime.SetName(doc.doc.name);
      crime.SetCity(doc.doc.city);
      crime.SetCrimeType(doc.doc.crimeType);
      crime.SetDetails(doc.doc.details);
      crime.SetPhotoPath(doc.doc.photoPath);
      if doc.doc.createdAt.Some? {
        crime.SetCreatedAt(doc.doc.createdAt);
      }
    }

    /**
     * loadCrimesFromDatabase: clears both views, then appends and pushes one
     * new record per document in query order. A cursor failure at document
     * failsAt ends the load there, keeping what was read.
     */
    method LoadCrimesFromDatabase(found: seq<StoredCrime>, failsAt: Option<nat>, now: Timestamp)
      requires CanonicalKeys(store) && IsQueryResult(store, found)
      modifies this
      ensures Valid()
      ensures forall j :: 0 <= j < |crimeList| ==> fresh(crimeList[j])
      ensures Values() == Loaded(found[..LoadCount(found, failsAt)], now)
      ensures failsAt.None? ==> Complete(Values(), store)
      ensures store == old(store) && webSocketService == old(webSocketService)
    {
      crimeList := [];
      crimeStack := [];
      var n := ReadCursor(found, failsAt, now);
      LoadedMirrors(store, found, n, now);
    }

    /**
     * The cursor loop of loadCrimesFromDatabase: one new record per document,
     * appended to the list and pushed on the stack, until the cursor ends or
     * throws.
     */
    method ReadCursor(found: seq<StoredCrime>, failsAt: Option<nat>, now: Timestamp) returns (i: nat)
      requires crimeList == [] && crimeStack == []
      modifies this`crimeList, this`crimeStack
      ensures i == LoadCount(found, failsAt)
      ensures crimeStack == crimeList
      ensures forall j :: 0 <= j < |crimeList| ==> fresh(crimeList[j])
      ensures Values() == Loaded(found[..i], now)
    {
      i := 0;
      while i < |found|
        invariant i <= LoadCount(found, failsAt)
        invariant crimeStack == crimeList && |crimeList| == i
        invariant forall j :: 0 <= j < i ==> fresh(crimeList[j])
        invariant forall j :: 0 <= j < i ==> crimeList[j].Value() == FromDocument(found[j], now)
      {
        if failsAt == Some(i) {
          break;
        }
        var crime := DocumentToCrime(found[i], now);
        crimeList := crimeList + [crime];
        crimeStack := crimeStack + [crime];
        i := i + 1;
      }
      assert Values() == Loaded(found[..i], now);
    }

    /**
     * addCrime: inserts the document, which the store gives the id
     * HexId(objectId); on success the new record is appended to the list and
     * pushed on the stack. The insert throws when the store fails or the id is
     * taken, and then nothing changes.
     */
    method AddCrime(name: string, city: string, crimeType: string, details: string, photoPath: string,
                    objectId: nat, insertFails: bool, now: Timestamp) returns (ok: bool)
      requires Valid()
      modifies this, webSocketService
      ensures Valid()
      ensures ok <==> !insertFails && HexId(objectId) !in old(store)
      ensures ok ==> store == old(store)[HexId(objectId) := CrimeDoc(name, city, crimeType, details, photoPath, Some(now))]
      ensures ok ==> Values() == old(Values()) + [CrimeData(Some(HexId(objectId)), name, city, crimeType, details, photoPath, Some(now))]
      ensures ok ==> |crimeList| == |old(crimeList)| + 1 && crimeList[..|old(crimeList)|] == old(crimeList)
      ensures !ok ==> store == old(store) && crimeList == old(crimeList) && crimeStack == old(crimeStack)
      ensures old(Complete(Values(), store)) ==> Complete(Values(), store)
      ensures webSocketService == old(webSocketService)
      ensures webSocketService != null ==> webSocketService.sent == old(webSocketService.sent) + (if ok then 1 else 0)
    {
      ghost var before := Values();
      var crime := new Crime(name, city, crimeType, details, photoPath, now);
      var crimeDoc := CrimeDoc(name, city, crimeType, details, photoPath, crime.createdAt);
      var id := HexId(objectId);
      if insertFails || id in store {
        return false;
      }
      crime.SetId(Some(id));
      assert Values() == before;
      AddStored(id, crimeDoc, crime);
      ghost var after := Values();
      assert after == before + [CrimeData(Some(id), name, city, crimeType, details, photoPath, Some(now))];
      if webSocketService != null {
        webSocketService.NotifyCrimeUpdate();
      }
      assert Values() == after;
      return true;
    }

    /** The successful branch of addCrime: the document is stored and its new record appended to both views. */
    method AddStored(id: string, doc: CrimeDoc, crime: Crime)
      requires Valid() && IsCanonicalId(id) && id !in store && crime !in crimeList
      requires crime.Value().id == Some(id) && Agrees(crime.Value(), doc)
      modifies this`store, this`crimeList, this`crimeStack
      ensures Valid()
      ensures store == old(store)[id := doc]
      ensures crimeList == old(crimeList) + [crime]
      ensures Values() == old(Values()) + [crime.Value()]
      ensures old(Complete(Values(), store)) ==> Complete(Values(), store)
    {
      ghost var oldValues := Values();
      AddKeepsMirror(oldValues, store, id, doc, crime.Value());
      store := store[id := doc];
      crimeList := crimeList + [crime];
      crimeStack := crimeStack + [crime];
      assert Values() == oldValues + [crime.Value()];
    }

    /**
     * editCrime: $set of the five fields on the document with that id. It
     * fails, changing nothing, when the id does not parse, the store throws,
     * or no document has the id. On success the record with that id, in
     * both views, takes the new fields.
     * Corrected: the in-memory records are matched against the canonical
     * (lower-case) id the ObjectId names; as written they are matched against
     * the raw argument, which EditAsWritten models.
     */
    method EditCrime(crimeId: string, name: string, city: string, crimeType: string, details: string, photoPath: string,
                     storeFails: bool) returns (ok: bool)
      requires Valid()
      modifies this, crimeList, webSocketService
      ensures Valid()
      ensures ok <==> ParseObjectId(crimeId).Some? && !storeFails && ParseObjectId(crimeId).value in old(store)
      ensures ok ==> var f := CrimeFields(name, city, crimeType, details, photoPath);
        var oid := ParseObjectId(crimeId).value;
        && store == old(store)[oid := UpdatedDoc(old(store)[oid], f)]
        && Values() == EditValues(old(Values()), oid, f)
      ensures !ok ==> store == old(store) && Values() == old(Values())
      ensures crimeList == old(crimeList)
      ensures old(Complete(Values(), store)) ==> Complete(Values(), store)
      ensures webSocketService == old(webSocketService)
      ensures webSocketService != null ==> webSocketService.sent == old(webSocketService.sent) + (if ok then 1 else 0)
    {
      var objectId := ParseObjectId(crimeId);
      if objectId.None? || storeFails {
        return false;
      }
      var oid := objectId.value;
      var modifiedCount := if oid in store then 1 else 0;
      if modifiedCount > 0 {
        EditStored(oid, name, city, crimeType, details, photoPath);
        ghost var after := Values();
        if webSocketService != null {
          webSocketService.NotifyCrimeUpdate();
        }
        assert Values() == after;
        return true;
      }
      return false;
    }

    /**
     * The successful branch of editCrime: the stored document takes the five
     * fields, and so does every record with its id, so memory still mirrors
     * the store.
     */
    method EditStored(oid: string, name: string, city: string, crimeType: string, details: string, photoPath: string)
      requires Valid() && oid in store
      modifies this`store, this`crimeStack, crimeList
      ensures Valid()
      ensures var f := CrimeFields(name, city, crimeType, details, photoPath);
        && store == old(store)[oid := UpdatedDoc(old(store)[oid], f)]
        && Values() == EditValues(old(Values()), oid, f)
      ensures old(Complete(Values(), store)) ==> Complete(Values(), store)
    {
      var f := CrimeFields(name, city, crimeType, details, photoPath);
      ghost var before := Values();
      ghost var oldStore := store;
      ghost var after := EditValues(before, oid, f);
      var doc := UpdatedDoc(store[oid], f);
      assert CanonicalKeys(oldStore[oid := doc]) && Mirrors(after, oldStore[oid := doc])
        && (Complete(before, oldStore) ==> Complete(after, oldStore[oid := doc])) by {
        EditKeepsMirror(before, oldStore, oid, f);
        if Complete(before, oldStore) {
          EditKeepsComplete(before, oldStore, oid, f);
        }
      }
      store := store[oid := doc];
      assert Values() == before;
      UpdateInMemoryStructures(oid, name, city, crimeType, details, photoPath);
      assert Values() == after;
    }

    /**
     * updateInMemoryStructures: sets the fields of the first list entry with
     * the id, then drains the stack into a temporary one and pushes every
     * record back, setting the fields of each entry with the id.
     */
    method UpdateInMemoryStructures(crimeId: string, name: string, city: string, crimeType: string, details: string, photoPath: string)
      requires crimeStack == crimeList
      modifies this`crimeStack, crimeList
      ensures crimeList == old(crimeList) && crimeStack == crimeList
      ensures Values() == EditValues(old(Values()), crimeId, CrimeFields(name, city, crimeType, details, photoPath))
      ensures store == old(store) && webSocketService == old(webSocketService)
    {
      var f := CrimeFields(name, city, crimeType, details, photoPath);
      ghost var before := Values();
      EditFirst(crimeList, crimeId, f, before);
      var tempStack := DrainStack();
      var newStack := PushBackEdited(tempStack, crimeList, crimeId, f, before);
      crimeStack := newStack;
    }

    /**
     * The list half of updateInMemoryStructures: the first entry with the id
     * takes the fields and every entry that is not that object keeps its
     * values; so each entry is either as it was or as the full edit leaves it.
     */
    static method EditFirst(list: seq<Crime>, crimeId: string, f: CrimeFields, ghost before: seq<CrimeData>)
      requires |before| == |list| && forall j :: 0 <= j < |list| ==> list[j].Value() == before[j]
      modifies list
      ensures var k := FirstWithId(before, crimeId);
        forall j :: 0 <= j < |list| ==>
          list[j].Value() == if k < |list| && list[j] == list[k] then WithFields(before[j], f) else before[j]
      ensures forall j :: 0 <= j < |list| ==>
        list[j].Value() == before[j] || list[j].Value() == EditValues(before, crimeId, f)[j]
    {
      var i := 0;
      while i < |list|
        invariant 0 <= i <= |list|
        invariant forall j :: 0 <= j < |list| ==> list[j].Value() == before[j]
        invariant forall j :: 0 <= j < i ==> before[j].id != Some(crimeId)
      {
        var crime := list[i];
        if crime.id == Some(crimeId) {
          EditAt(crime, list, f);
          return;
        }
        i := i + 1;
      }
    }

    /**
     * The stack half of updateInMemoryStructures: pops the drained stack
     * back, setting the fields of each record with the id, so the stack is
     * restored and every record with the id is edited.
     */
    static method PushBackEdited(tempStack: seq<Crime>, ghost s0: seq<Crime>, crimeId: string, f: CrimeFields,
                                 ghost before: seq<CrimeData>) returns (newStack: seq<Crime>)
      requires tempStack == Reverse(s0) && |before| == |s0|
      requires forall j :: 0 <= j < |s0| ==>
        s0[j].Value() == before[j] || s0[j].Value() == EditValues(before, crimeId, f)[j]
      modifies s0
      ensures newStack == s0
      ensures forall j :: 0 <= j < |s0| ==> s0[j].Value() == EditValues(before, crimeId, f)[j]
    {
      ghost var after := EditValues(before, crimeId, f);
      var rest := tempStack;
      newStack := [];
      ghost var n := 0;
      while rest != []
        invariant n + |rest| == |s0|
        invariant newStack == s0[..n]
        invariant rest == Reverse(s0[n..])
        invariant EditProgress(s0, n, before, after)
      {
        ReverseStep(s0, n + 1);
        var crime := rest[|rest| - 1];
        rest := rest[..|rest| - 1];
        EditIfMatches(crime, s0, n, crimeId, f, before);
        PrefixStep(s0, n);
        newStack := newStack + [crime];
        n := n + 1;
      }
      assert s0[..n] == s0;
    }

    /** The entries below n are edited; the others are as they were or already edited. */
    static ghost predicate EditProgress(s0: seq<Crime>, n: int, before: seq<CrimeData>, after: seq<CrimeData>)
      reads s0
    {
      && 0 <= n <= |s0| == |before| == |after|
      && (forall j :: 0 <= j < |s0| ==> s0[j].Value() == before[j] || s0[j].Value() == after[j])
      && (forall j :: 0 <= j < n ==> s0[j].Value() == after[j])
    }

    /** One step of the rebuild: the popped record takes the fields when it has the id. */
    static method EditIfMatches(crime: Crime, ghost s0: seq<Crime>, ghost n: int, crimeId: string, f: CrimeFields,
                                ghost before: seq<CrimeData>)
      requires 0 <= n < |s0| && s0[n] == crime
      requires EditProgress(s0, n, before, EditValues(before, crimeId, f))
      modifies crime
      ensures EditProgress(s0, n + 1, before, EditValues(before, crimeId, f))
    {
      if crime.id == Some(crimeId) {
        EditAt(crime, s0, f);
      }
    }

    /** Pops every record of the stack onto a new one, which then holds them in reverse. */
    method DrainStack() returns (tempStack: seq<Crime>)
      modifies this`crimeStack
      ensures crimeStack == [] && tempStack == Reverse(old(crimeStack))
    {
      ghost var s0 := crimeStack;
      tempStack := [];
      while crimeStack != []
        invariant |crimeStack| <= |s0| && crimeStack == s0[..|crimeStack|]
        invariant tempStack == Reverse(s0[|crimeStack|..])
      {
        ReverseStep(s0, |crimeStack|);
        tempStack := tempStack + [crimeStack[|crimeStack| - 1]];
        crimeStack := crimeStack[..|crimeStack| - 1];
      }
    }

    /**
     * The five setter calls an edit makes on a record, seen from a sequence
     * holding it: the entries that are this object take the fields, the
     * others keep their values.
     */
    static method EditAt(crime: Crime, ghost cs: seq<Crime>, f: CrimeFields)
      modifies crime
      ensures forall j :: 0 <= j < |cs| ==>
        cs[j].Value() == if cs[j] == crime then WithFields(old(cs[j].Value()), f) else old(cs[j].Value())
    {
      crime.SetName(f.name);
      crime.SetCity(f.city);
      crime.SetCrimeType(f.crimeType);
      crime.SetDetails(f.details);
      crime.SetPhotoPath(f.photoPath);
    }

    /**
     * deleteCrime: deletes the document with that id. It fails, changing
     * nothing, when the id does not parse, the store throws, or no document
     * has the id. On success the record leaves both views; the others keep
     * their order.
     * Corrected: the in-memory records are matched against the canonical
     * (lower-case) id the ObjectId names; as written they are matched against
     * the raw argument, which RemoveAsWritten models.
     */
    method DeleteCrime(crimeId: string, storeFails: bool) returns (ok: bool)
      requires Valid()
      modifies this, webSocketService
      ensures Valid()
      ensures ok <==> ParseObjectId(crimeId).Some? && !storeFails && ParseObjectId(crimeId).value in old(store)
      ensures ok ==> var oid := ParseObjectId(crimeId).value;
        && store == old(store) - {oid}
        && Values() == RemoveValues(old(Values()), oid)
      ensures !ok ==> store == old(store) && crimeList == old(crimeList) && crimeStack == old(crimeStack)
      ensures old(Complete(Values(), store)) ==> Complete(Values(), store)
      ensures webSocketService == old(webSocketService)
      ensures webSocketService != null ==> webSocketService.sent == old(webSocketService.sent) + (if ok then 1 else 0)
    {
      var objectId := ParseObjectId(crimeId);
      if objectId.None? || storeFails {
        return false;
      }
      var oid := objectId.value;
      var deletedCount := if oid in store then 1 else 0;
      if deletedCount > 0 {
        DeleteStored(oid);
        ghost var after := Values();
        if webSocketService != null {
          webSocketService.NotifyCrimeUpdate();
        }
        assert Values() == after;
        return true;
      }
      return false;
    }

    /**
     * The successful branch of deleteCrime: the document leaves the store and
     * its record leaves both views, so memory still mirrors the store.
     */
    method DeleteStored(oid: string)
      requires Valid() && oid in store
      modifies this`store, this`crimeList, this`crimeStack
      ensures Valid()
      ensures store == old(store) - {oid} && Values() == RemoveValues(old(Values()), oid)
      ensures old(Complete(Values(), store)) ==> Complete(Values(), store)
    {
      ghost var before := Values();
      ghost var oldStore := store;
      ghost var after := RemoveValues(before, oid);
      RemoveKeepsMirror(before, oldStore, oid);
      if Complete(before, oldStore) {
        RemoveKeepsComplete(before, oldStore, oid);
      }
      store := store - {oid};
      assert Values() == before;
      RemoveFromInMemoryStructures(oid);
      assert Values() == after;
    }

    /**
     * removeFromInMemoryStructures: removeIf on the list, then the stack is
     * drained and rebuilt without the records carrying the id.
     */
    method RemoveFromInMemoryStructures(crimeId: string)
      requires crimeStack == crimeList
      modifies this`crimeList, this`crimeStack
      ensures crimeStack == crimeList
      ensures forall c :: c in crimeList ==> c in old(crimeList)
      ensures Values() == RemoveValues(old(Values()), crimeId)
    {
      ghost var s0 := crimeStack;
      ghost var kept := RemoveValues(Values(), crimeId);
      ghost var survivors := WithoutId(s0, crimeId);
      WithoutIdValues(s0, crimeId);
      WithoutIdSubset(s0, crimeId);
      crimeList := WithoutId(crimeList, crimeId);
      assert Values() == kept && crimeList == survivors;
      var tempStack := DrainStack();
      assert WithoutId(s0, crimeId) == survivors;
      var newStack := PushBackKept(tempStack, s0, crimeId);
      crimeStack := newStack;
      assert Values() == kept;
    }

    /**
     * The stack half of removeFromInMemoryStructures: pops the drained stack
     * back, pushing only the records without the id.
     */
    static method PushBackKept(tempStack: seq<Crime>, ghost s0: seq<Crime>, crimeId: string) returns (newStack: seq<Crime>)
      requires tempStack == Reverse(s0)
      ensures newStack == WithoutId(s0, crimeId)
    {
      var rest := tempStack;
      newStack := [];
      var n := 0;
      while rest != []
        invariant n + |rest| == |s0|
        invariant newStack == WithoutId(s0[..n], crimeId)
        invariant rest == Reverse(s0[n..])
      {
        ReverseStep(s0, n + 1);
        var crime := rest[|rest| - 1];
        rest := rest[..|rest| - 1];
        if crime.id != Some(crimeId) {
          newStack := newStack + [crime];
        }
        n := n + 1;
        assert s0[..n][..n - 1] == s0[..n - 1];
      }
      assert s0[..n] == s0;
    }

    /** getAllCrimes: a copy of the list. */
    method GetAllCrimes() returns (crimes: seq<Crime>)
      ensures crimes == crimeList
    {
      crimes := crimeList;
    }

    /** getCrimesStack: a copy of the stack, bottom to top; under Valid the list itself. */
    method GetCrimesStack() returns (stackCopy: seq<Crime>)
      ensures stackCopy == crimeStack
      ensures Valid() ==> stackCopy == crimeList
    {
      stackCopy := crimeStack;
    }

    /** getTotalCrimeCount: the list size, which is the number of stored documents when memory is complete. */
    method GetTotalCrimeCount() returns (count: nat)
      ensures count == |crimeList|
      ensures Valid() && Complete(Values(), store) ==> count == |store|
    {
      count := |crimeList|;
      if Valid() && Complete(Values(), store) {
        MirrorCount(Values(), store);
      }
    }

    /**
     * getAllCrimesInFIFOOrder: pops a copy of the stack, so the newest record
     * comes first; with the stack equal to the list, as Valid requires, it is
     * the list reversed. The stack is not changed.
     */
    method GetAllCrimesInFIFOOrder() returns (fifoList: seq<Crime>)
      ensures fifoList == Reverse(crimeStack)
      ensures crimeStack == crimeList ==>
        |fifoList| == |crimeList| && forall i :: 0 <= i < |fifoList| ==> fifoList[i] == crimeList[|crimeList| - 1 - i]
    {
      fifoList := [];
      var tempStack := crimeStack;
      while tempStack != []
        invariant |tempStack| <= |crimeStack| && tempStack == crimeStack[..|tempStack|]
        invariant fifoList == Reverse(crimeStack[|tempStack|..])
      {
        ReverseStep(crimeStack, |tempStack|);
        fifoList := fifoList + [tempStack[|tempStack| - 1]];
        tempStack := tempStack[..|tempStack| - 1];
      }
    }

    /**
     * getCrimeById: a new Crime read from the document with that id; null
     * when the id does not parse, the store throws or nothing matches.
     */
    method GetCrimeById(crimeId: string, storeFails: bool, now: Timestamp) returns (crime: Crime?)
      ensures crime != null <==> ParseObjectId(crimeId).Some? && !storeFails && ParseObjectId(crimeId).value in store
      ensures crime != null ==>
        fresh(crime) && crime.Value() == FromDocument(StoredCrime(ParseObjectId(crimeId).value, store[ParseObjectId(crimeId).value]), now)
    {
      var objectId := ParseObjectId(crimeId);
      if objectId.None? || storeFails {
        return null;
      }
      if objectId.value in store {
        crime := DocumentToCrime(StoredCrime(objectId.value, store[objectId.value]), now);
        return crime;
      }
      return null;
    }
  }

}
