/**
 * The crime record: its value, the stored document it is read from, the
 * mutable Crime object the services share, and MongoDB object ids.
 */
module Crimes {
  import opened Wrappers
  import opened JavaText
  import Validation

  /** A LocalDateTime, as milliseconds of local time since the epoch. */
  type Timestamp = int

  /** The fields of a Crime at one moment; a null id or createdAt is None. */
  datatype CrimeData = CrimeData(
    id: Option<string>,
    name: string,
    city: string,
    crimeType: string,
    details: string,
    photoPath: string,
    createdAt: Option<Timestamp>)

  /** The five fields a record is created with and an edit replaces. */
  datatype CrimeFields = CrimeFields(name: string, city: string, crimeType: string, details: string, photoPath: string)

  /** A document of the crimes collection, without its _id. */
  datatype CrimeDoc = CrimeDoc(
    name: string,
    city: string,
    crimeType: string,
    details: string,
    photoPath: string,
    createdAt: Option<Timestamp>)

  /** A document together with its _id, as a query returns it. */
  datatype StoredCrime = StoredCrime(id: string, doc: CrimeDoc)

  function FieldsOf(c: CrimeData): CrimeFields {
    CrimeFields(c.name, c.city, c.crimeType, c.details, c.photoPath)
  }

  function DocFields(d: CrimeDoc): CrimeFields {
    CrimeFields(d.name, d.city, d.crimeType, d.details, d.photoPath)
  }

  /** A record replaced by new user-entered fields; id and createdAt are kept. */
  function WithFields(c: CrimeData, f: CrimeFields): (r: CrimeData)
    ensures FieldsOf(r) == f && r.id == c.id && r.createdAt == c.createdAt
  {
    c.(name := f.name, city := f.city, crimeType := f.crimeType, details := f.details, photoPath := f.photoPath)
  }

  /**
   * documentToCrime: the record read from a stored document. The five text
   * fields and the id come from the document; createdAt does too when the
   * document has one, and otherwise stays at the time the Crime was built.
   */
  function FromDocument(stored: StoredCrime, now: Timestamp): (c: CrimeData)
    ensures c.id == Some(stored.id)
    ensures FieldsOf(c) == DocFields(stored.doc)
    ensures c.createdAt == Some(stored.doc.createdAt.GetOr(now))
  {
    CrimeData(Some(stored.id), stored.doc.name, stored.doc.city, stored.doc.crimeType,
      stored.doc.details, stored.doc.photoPath, Some(stored.doc.createdAt.GetOr(now)))
  }

  /** A record in memory agrees with its stored document. */
  predicate Agrees(c: CrimeData, d: CrimeDoc) {
    FieldsOf(c) == DocFields(d) && (d.createdAt.Some? ==> c.createdAt == d.createdAt)
  }

  /** A record read from a document agrees with that document. */
  lemma FromDocumentAgrees(stored: StoredCrime, now: Timestamp)
    ensures Agrees(FromDocument(stored, now), stored.doc)
  {
  }

  // ---- object ids -------------------------------------------------------

  predicate IsLowerHexDigit(c: char) {
    '0' <= c <= '9' || 'a' <= c <= 'f'
  }

  /** The form ObjectId.toString produces: 24 lower-case hex digits. */
  predicate IsCanonicalId(s: string) {
    |s| == 24 && forall i :: 0 <= i < |s| ==> IsLowerHexDigit(s[i])
  }

  /**
   * new ObjectId(hex): 24 hex digits in either case are accepted and the id
   * is the lower-case form; anything else throws (None).
   */
  function ParseObjectId(s: string): (r: Option<string>)
    ensures r.Some? <==> Validation.IsHexId(s)
    ensures r.Some? ==> IsCanonicalId(r.value) && r.value == ToLower(s)
  {
    if Validation.IsHexId(s) then Some(ToLower(s)) else None
  }

  /** A canonical id parses to itself, so it names the record it came from. */
  lemma CanonicalIdParses(s: string)
    requires IsCanonicalId(s)
    ensures ParseObjectId(s) == Some(s)
  {
    assert ToLower(s) == s;
  }

  /** An id that validateId accepts parses, once trimmed. */
  lemma ValidatedIdParses(id: string)
    ensures Validation.ValidateId(Some(id)).Pass? <==> ParseObjectId(Trim(id)).Some?
  {
  }

  function HexDigitChar(d: nat): (c: char)
    requires d < 16
    ensures IsLowerHexDigit(c)
  {
    if d < 10 then ('0' as int + d) as char else ('a' as int + d - 10) as char
  }

  /** The last k hex digits of n, most significant first. */
  function HexDigits(n: nat, k: nat): (s: string)
    ensures |s| == k
    ensures forall i :: 0 <= i < k ==> IsLowerHexDigit(s[i])
  {
    if k == 0 then [] else HexDigits(n / 16, k - 1) + [HexDigitChar(n % 16)]
  }

  /** The text of the object id the store assigns to an insert, from its 96-bit value. */
  function HexId(n: nat): (s: string)
    ensures IsCanonicalId(s)
  {
    HexDigits(n, 24)
  }

  // ---- the mutable record -----------------------------------------------

  /** Crime: a mutable field bag shared by the services' list and stack. */
  class Crime {
    var id: Option<string>
    var name: string
    var city: string
    var crimeType: string
    var details: string
    var photoPath: string
    var createdAt: Option<Timestamp>

    /** The values the fields hold now. */
    function Value(): CrimeData
      reads this
    {
      CrimeData(id, name, city, crimeType, details, photoPath, createdAt)
    }

    /**
     * Crime(): created now, with no id. The text fields, which Java leaves
     * null until documentToCrime sets them, start empty here.
     */
    constructor Empty(now: Timestamp)
      ensures Value() == CrimeData(None, "", "", "", "", "", Some(now))
    {
      id := None;
      name := "";
      city := "";
      crimeType := "";
      details := "";
      photoPath := "";
      createdAt := Some(now);
    }

    /** Crime(name, city, crimeType, details, photoPath): the given fields, created now, no id. */
    constructor (name: string, city: string, crimeType: string, details: string, photoPath: string, now: Timestamp)
      ensures Value() == CrimeData(None, name, city, crimeType, details, photoPath, Some(now))
    {
      this.id := None;
      this.name := name;
      this.city := city;
      this.crimeType := crimeType;
      this.details := details;
      this.photoPath := photoPath;
      this.createdAt := Some(now);
    }

    method SetId(id: Option<string>)
      modifies this
      ensures Value() == old(Value()).(id := id)
    {
      this.id := id;
    }

    method SetName(name: string)
      modifies this
      ensures Value() == old(Value()).(name := name)
    {
      this.name := name;
    }

    method SetCity(city: string)
      modifies this
      ensures Value() == old(Value()).(city := city)
    {
      this.city := city;
    }

    method SetCrimeType(crimeType: string)
      modifies this
      ensures Value() == old(Value()).(crimeType := crimeType)
    {
      this.crimeType := crimeType;
    }

    method SetDetails(details: string)
      modifies this
      ensures Value() == old(Value()).(details := details)
    {
      this.details := details;
    }

    method SetPhotoPath(photoPath: string)
      modifies this
      ensures Value() == old(Value()).(photoPath := photoPath)
    {
      this.photoPath := photoPath;
    }

    method SetCreatedAt(createdAt: Option<Timestamp>)
      modifies this
      ensures Value() == old(Value()).(createdAt := createdAt)
    {
      this.createdAt := createdAt;
    }

    /** toString, with the rendering of a LocalDateTime supplied by the caller. */
    function ToString(render: Timestamp -> string): string
      reads this
    {
      RecordText(Value(), render)
    }
  }

  /** String concatenation of a LocalDateTime that may be null. */
  function RenderCreated(t: Option<Timestamp>, render: Timestamp -> string): string {
    if t.Some? then render(t.value) else "null"
  }

  /** The text toString gives for a record's values. */
  function RecordText(c: CrimeData, render: Timestamp -> string): string {
    "Crime{name='" + c.name + "', city='" + c.city + "', crimeType='" + c.crimeType
    + "', details='" + c.details + "', createdAt=" + RenderCreated(c.createdAt, render) + "}"
  }

  /** toString shows neither the id nor the photo path. */
  lemma RecordTextIgnoresIdAndPhoto(c: CrimeData, id: Option<string>, photoPath: string, render: Timestamp -> string)
    ensures RecordText(c.(id := id, photoPath := photoPath), render) == RecordText(c, render)
  {
  }

  /** toString opens with the class name, then the name quoted, and closes with a brace. */
  lemma {:induction false} RecordTextLayout(c: CrimeData, render: Timestamp -> string)
    ensures |RecordText(c, render)| > 12 + |c.name|
    ensures RecordText(c, render)[..12] == "Crime{name='"
    ensures RecordText(c, render)[12..12 + |c.name|] == c.name
    ensures RecordText(c, render)[|RecordText(c, render)| - 1] == '}'
  {
    var rest := "', city='" + c.city + "', crimeType='" + c.crimeType + "', details='" + c.details
      + "', createdAt=" + RenderCreated(c.createdAt, render);
    assert RecordText(c, render) == "Crime{name='" + c.name + rest + "}";
  }
}
