/**
 * WebController: the crime-records page. It shares the console's
 * CrimeService when one is registered, builds its own SearchService, and
 * lists either the search results or every record, sorted newest first and
 * grouped by day.
 */
module WebControllers {
  import opened Wrappers
  import opened JavaText
  import opened Crimes
  import opened CrimeRecords
  import opened CrimeServices
  import opened SearchServices
  import opened RecordListing

  /** The branches of the switch on the lower-cased search type. */
  datatype SearchKind = ById | ByCity | ByCrimeType | ByDetails | ByName

  /** The branch taken for a search type: "name" and every value not listed search by name. */
  function KindOf(searchType: string): (k: SearchKind)
    ensures k == ById <==> ToLower(searchType) == "id"
    ensures k == ByCity <==> ToLower(searchType) == "city"
    ensures k == ByCrimeType <==> ToLower(searchType) == "crimetype"
    ensures k == ByDetails <==> ToLower(searchType) == "details"
  {
    var t := ToLower(searchType);
    if t == "id" then ById
    else if t == "city" then ByCity
    else if t == "crimetype" then ByCrimeType
    else if t == "details" then ByDetails
    else ByName
  }

  /** Search types that differ only in case take the same branch. */
  lemma KindIgnoresCase(a: string, b: string)
    requires ToLower(a) == ToLower(b)
    ensures KindOf(a) == KindOf(b)
  {
  }

  /** A search runs only for a present, non-blank term. */
  predicate Searching(searchTerm: Option<string>) {
    searchTerm.Some? && !IsBlank(searchTerm.value)
  }

  /** The attributes the page is rendered from; the search attributes are set only when a search ran. */
  datatype RecordsView = RecordsView(
    crimes: seq<CrimeData>,
    totalRecords: int,
    todayCrimes: seq<CrimeData>,
    yesterdayCrimes: seq<CrimeData>,
    earlierCrimes: seq<CrimeData>,
    searchTerm: Option<string>,
    searchType: Option<string>)

  /** The values of records popped from a stack are those of the stack's values, popped. */
  lemma ValuesOfReverse(cs: seq<Crime>)
    ensures ValuesOf(Reverse(cs)) == Reverse(ValuesOf(cs))
  {
    assert forall i :: 0 <= i < |cs| ==> ValuesOf(Reverse(cs))[i] == Reverse(ValuesOf(cs))[i];
  }

  class WebController {
    const crimeService: CrimeService
    const searchService: SearchService

    /**
     * WebController(webSocketService): reuses the registered CrimeService and
     * attaches the notifier to it, or creates one and registers it; then a
     * new SearchService builds its indexes over the collection.
     */
    constructor (holder: SharedServiceHolder, webSocketService: WebSocketService?,
                 store: map<string, CrimeDoc>, found: seq<StoredCrime>, loadFailsAt: Option<nat>,
                 docs: seq<StoredCrime>, indexFailsAt: Option<nat>, now: Timestamp)
      requires holder.crimeService != null ==> holder.crimeService.Valid()
      requires holder.crimeService == null ==> CanonicalKeys(store) && IsQueryResult(store, found)
      modifies holder, holder.crimeService
      ensures crimeService.Valid() && holder.crimeService == crimeService
      ensures old(holder.crimeService) != null ==>
        && crimeService == old(holder.crimeService)
        && crimeService.webSocketService == webSocketService
        && crimeService.store == old(holder.crimeService.store)
        && crimeService.crimeList == old(holder.crimeService.crimeList)
      ensures old(holder.crimeService) == null ==>
        && fresh(crimeService)
        && crimeService.webSocketService == (if webSocketService != null then webSocketService else old(holder.webSocketService))
        && crimeService.store == store
        && crimeService.Values() == Loaded(found[..LoadCount(found, loadFailsAt)], now)
      ensures fresh(searchService)
      ensures searchService.IndexesOf(Loaded(docs[..LoadCount(docs, indexFailsAt)], now))
    {
      var service := WebController.SharedCrimeService(holder, webSocketService, store, found, loadFailsAt, now);
      var search := new SearchService(docs, indexFailsAt, now);
      crimeService, searchService := service, search;
    }

    /** The constructor's choice of CrimeService: the registered one, given the notifier, or a new registered one. */
    static method SharedCrimeService(holder: SharedServiceHolder, webSocketService: WebSocketService?,
                                     store: map<string, CrimeDoc>, found: seq<StoredCrime>, loadFailsAt: Option<nat>,
                                     now: Timestamp) returns (service: CrimeService)
      requires holder.crimeService != null ==> holder.crimeService.Valid()
      requires holder.crimeService == null ==> CanonicalKeys(store) && IsQueryResult(store, found)
      modifies holder, holder.crimeService
      ensures service.Valid() && holder.crimeService == service
      ensures old(holder.crimeService) != null ==>
        && service == old(holder.crimeService)
        && service.webSocketService == webSocketService
        && service.store == old(holder.crimeService.store)
        && service.crimeList == old(holder.crimeService.crimeList)
      ensures old(holder.crimeService) == null ==>
        && fresh(service)
        && service.webSocketService == (if webSocketService != null then webSocketService else old(holder.webSocketService))
        && service.store == store
        && service.Values() == Loaded(found[..LoadCount(found, loadFailsAt)], now)
    {
      var shared := holder.GetCrimeService();
      if shared != null {
        shared.SetWebSocketService(webSocketService, holder);
        return shared;
      }
      service := WebController.NewSharedCrimeService(holder, webSocketService, store, found, loadFailsAt, now);
    }

    /** The constructor's other branch: a new CrimeService, registered in the holder. */
    static method NewSharedCrimeService(holder: SharedServiceHolder, webSocketService: WebSocketService?,
                                        store: map<string, CrimeDoc>, found: seq<StoredCrime>, loadFailsAt: Option<nat>,
                                        now: Timestamp) returns (service: CrimeService)
      requires holder.crimeService == null && CanonicalKeys(store) && IsQueryResult(store, found)
      modifies holder
      ensures fresh(service) && service.Valid() && holder.crimeService == service
      ensures service.webSocketService == (if webSocketService != null then webSocketService else old(holder.webSocketService))
      ensures service.store == store
      ensures service.Values() == Loaded(found[..LoadCount(found, loadFailsAt)], now)
    {
      service := new CrimeService(holder, webSocketService, store, found, loadFailsAt, now);
      holder.SetCrimeService(service);
    }

    /**
     * The records crimeRecords lists before sorting: the search results for
     * a non-blank term, by the branch of the search type; otherwise the
     * stack popped top first.
     */
    function Candidates(searchTerm: Option<string>, searchType: string,
                        docs: seq<StoredCrime>, storeFails: bool, now: Timestamp): seq<CrimeData>
      reads crimeService, crimeService.crimeStack, searchService
    {
      if !Searching(searchTerm) then ValuesOf(Reverse(crimeService.crimeStack))
      else
        var term := searchTerm.value;
        match KindOf(searchType)
        case ById =>
          var oid := ParseObjectId(term);
          if oid.Some? && !storeFails && oid.value in crimeService.store
          then [FromDocument(StoredCrime(oid.value, crimeService.store[oid.value]), now)]
          else []
        case ByCity => Lookup(searchService.cityIndex, City, term, docs, storeFails, now)
        case ByCrimeType => Lookup(searchService.crimeTypeIndex, CrimeType, term, docs, storeFails, now)
        case ByDetails => DatabaseSearch(docs, Details, term, storeFails, now)
        case ByName => Lookup(searchService.nameIndex, Name, term, docs, storeFails, now)
    }

    /** Without a search the page lists the stored records newest-added first: the list reversed. */
    lemma ListsFifoOrder(searchTerm: Option<string>, searchType: string,
                         docs: seq<StoredCrime>, storeFails: bool, now: Timestamp)
      requires crimeService.Valid() && !Searching(searchTerm)
      ensures Candidates(searchTerm, searchType, docs, storeFails, now) == Reverse(crimeService.Values())
    {
      ValuesOfReverse(crimeService.crimeList);
    }

    /**
     * crimeRecords: the candidates, stably sorted newest first with undated
     * records first, their number, and the sorted list split into today,
     * yesterday and earlier (`today` is the current day number).
     */
    method CrimeRecords(searchTerm: Option<string>, searchType: string,
                        docs: seq<StoredCrime>, storeFails: bool, now: Timestamp, today: int)
      returns (view: RecordsView)
      ensures view.crimes == SortNewestFirst(Candidates(searchTerm, searchType, docs, storeFails, now))
      ensures view.totalRecords == |view.crimes|
      ensures view.todayCrimes == InPeriod(view.crimes, Today, today)
      ensures view.yesterdayCrimes == InPeriod(view.crimes, Yesterday, today)
      ensures view.earlierCrimes == InPeriod(view.crimes, Earlier, today)
      ensures |view.todayCrimes| + |view.yesterdayCrimes| + |view.earlierCrimes| == view.totalRecords
      ensures Searching(searchTerm) ==> view.searchTerm == searchTerm && view.searchType == Some(searchType)
      ensures !Searching(searchTerm) ==> view.searchTerm.None? && view.searchType.None?
    {
      var crimes := SelectRecords(searchTerm, searchType, docs, storeFails, now);
      var shownTerm: Option<string> := None;
      var shownType: Option<string> := None;
      if searchTerm.Some? && !IsBlank(searchTerm.value) {
        shownTerm, shownType := searchTerm, Some(searchType);
      }
      var sorted := SortNewestFirst(crimes);
      var todayCrimes, yesterdayCrimes, earlierCrimes := GroupByDate(sorted, today);
      PeriodsPartition(sorted, today);
      view := RecordsView(sorted, |sorted|, todayCrimes, yesterdayCrimes, earlierCrimes, shownTerm, shownType);
    }

    /** The first half of crimeRecords: the search by the type's branch, or the FIFO list. */
    method SelectRecords(searchTerm: Option<string>, searchType: string,
                         docs: seq<StoredCrime>, storeFails: bool, now: Timestamp)
      returns (crimes: seq<CrimeData>)
      ensures crimes == Candidates(searchTerm, searchType, docs, storeFails, now)
    {
      if searchTerm.Some? && !IsBlank(searchTerm.value) {
        var term := searchTerm.value;
        match KindOf(searchType)
        case ById =>
          var crime := crimeService.GetCrimeById(term, storeFails, now);
          crimes := if crime != null then [crime.Value()] else [];
        case ByCity =>
          crimes := searchService.SearchByCity(term, docs, storeFails, now);
        case ByCrimeType =>
          crimes := searchService.SearchByCrimeType(term, docs, storeFails, now);
        case ByDetails =>
          crimes := searchService.SearchByDetails(term, docs, storeFails, now);
        case ByName =>
          crimes := searchService.SearchByName(term, docs, storeFails, now);
      } else {
        var fifo := crimeService.GetAllCrimesInFIFOOrder();
        crimes := ValuesOf(fifo);
      }
    }
  }
}
