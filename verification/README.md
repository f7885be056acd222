# Crime record management, modelled in Dafny

The system keeps crime records in a MongoDB `crimes` collection. It shows
them through a console menu and a Spring web page. This project models the
logic underneath those front ends:

- **CrimeService** keeps every record twice in memory: in an `ArrayList`
  and in a `Stack` that, read bottom to top, is that list. A load reads the
  collection newest first, so after a load the list is newest first and the
  stack top is the oldest loaded record (see Findings); records added later
  are appended and pushed on top. Both are kept in step with the collection across load and add. Edit and delete
  keep them in step only for an id given in canonical lower-case form (see
  Findings); the model's edit and delete use the corrected match.
- **Crime** is the mutable record object that both structures share.
- **SharedServiceHolder** is the two-slot registry through which the
  console and the web application share one CrimeService and one
  notifier.
- **SearchService** holds three indexes from a lower-cased name, city or
  crime type to the records carrying it. A lookup uses the index and falls
  back to a case-insensitive match in the collection. An advanced search
  ANDs the criteria it is given.
- **WebController** has two modelled parts. Its constructor reuses or
  creates the shared CrimeService. `crimeRecords` dispatches on the
  search type, sorts newest first and groups by day.
- **AuthService** keeps a login session and a role × action permission
  table. **UserService** adds, lists, deletes and re-roles users.
- **ValidationUtils** provides the field validators, sanitising and
  integer checks. They report failures as **ValidationException**, a
  **CrimeManagementException** with an error code and a user message.
- The helpers modelled are:
  - `PhotoUtils.isImageFile` and `getFileExtension`;
  - the integer parts of **ASCIIArtGenerator**;
  - `SystemUtils.centerText`;
  - `ErrorHandler.handleWithRetry`.

Modelling choices:

- The collection is a map from object id to document.
- A database failure is a boolean parameter, or the index at which a cursor throws.
- The id the driver generates is a number parameter rendered as 24 lower-case hex digits.
- The clock is a parameter: `now` in milliseconds of local time, `today` as a day number.
- Java's `String.trim`, `toLowerCase` (ASCII), `Integer.parseInt`, 32-bit wrap-around and truncating division are written out in `JavaText`.

CrimeService, Crime, SharedServiceHolder, the notifier, AuthService and
UserService are classes whose methods update their fields. A Crime's
contents are read through `Value()`, a `CrimeData` value.

The state invariant `CrimeService.Valid()` has three parts:

- the stack, read bottom to top, is the list;
- every stored key is a canonical id;
- the list mirrors the collection: distinct ids, each stored, each record agreeing with its document, createdAt included to the millisecond.

Every mutating method keeps `Valid()`. A load that reads the whole cursor
also makes the list complete: one record per document. Add, edit and
delete preserve completeness.

Modules: `Wrappers`, `JavaText`, `Validation`, `Exceptions`, `Crimes`,
`CrimeRecords` (the value-level specification of the two structures),
`CrimeServices`, `SearchServices`, `RecordListing`, `WebControllers`,
`Users`, `Auth`, `PhotoUtils`, `AsciiArt`, `SystemUtils`, `ErrorHandler`.

## Model

| member | source | states |
|---|---|---|
| AsciiArt.GetAsciiChar | src/main/java/com/crimemanagement/util/ASCIIArtGenerator.java:95-99 | the index is brightness*9/255 in Java int arithmetic; when it lies inside the ten-character ramp the result is a ramp character, otherwise the call fails (None) |
| AsciiArt.ShadeInRange | src/main/java/com/crimemanagement/util/ASCIIArtGenerator.java:95-99 | every brightness in 0..255 gives an index in 0..9, so the lookup never fails and returns the ramp character at that index |
| AsciiArt.ShadeEndpoints | src/main/java/com/crimemanagement/util/ASCIIArtGenerator.java:95-99 | brightness 0 maps to '@' and 255 to ' ' |
| AsciiArt.ShadeMonotone | src/main/java/com/crimemanagement/util/ASCIIArtGenerator.java:97 | a brighter input never maps to an earlier (darker) ramp position |
| AsciiArt.GradientBounds | src/main/java/com/crimemanagement/util/ASCIIArtGenerator.java:180 | for 0 <= x < width, x*255 does not overflow and x*255/width lies in 0..254 |
| AsciiArt.PatternRow | src/main/java/com/crimemanagement/util/ASCIIArtGenerator.java:178-184 | a row is exactly max(width, 0) gradient characters followed by '\n' |
| AsciiArt.DisplayTestPattern | src/main/java/com/crimemanagement/util/ASCIIArtGenerator.java:174-186 | the nested loops build max(height, 0) copies of the row |
| AsciiArt.IsImageFile | src/main/java/com/crimemanagement/util/ASCIIArtGenerator.java:191-202 | true exactly for a non-null path whose lower-cased form ends in .jpg, .jpeg, .png, .gif or .bmp |
| AsciiArt.ImageNameNotBlank | src/main/java/com/crimemanagement/util/ASCIIArtGenerator.java:191-202 | a path the suffix test accepts is never blank, so the blank check never rejects an image name |
| Crimes.Crime.Empty | src/main/java/com/crimemanagement/model/Crime.java:14-16 | the no-argument constructor sets createdAt to now and leaves id null |
| Crimes.Crime.constructor | src/main/java/com/crimemanagement/model/Crime.java:18-25 | the five fields are stored exactly as given, createdAt is now and id is null |
| Crimes.Crime.SetId | src/main/java/com/crimemanagement/model/Crime.java:32-34 | changes the id and no other field |
| Crimes.Crime.SetName | src/main/java/com/crimemanagement/model/Crime.java:40-42 | changes the name and no other field |
| Crimes.Crime.SetCity | src/main/java/com/crimemanagement/model/Crime.java:48-50 | changes the city and no other field |
| Crimes.Crime.SetCrimeType | src/main/java/com/crimemanagement/model/Crime.java:56-58 | changes the crime type and no other field |
| Crimes.Crime.SetDetails | src/main/java/com/crimemanagement/model/Crime.java:64-66 | changes the details and no other field |
| Crimes.Crime.SetPhotoPath | src/main/java/com/crimemanagement/model/Crime.java:72-74 | changes the photo path and no other field |
| Crimes.Crime.SetCreatedAt | src/main/java/com/crimemanagement/model/Crime.java:80-82 | changes createdAt and no other field |
| Crimes.RecordTextIgnoresIdAndPhoto | src/main/java/com/crimemanagement/model/Crime.java:85-93 | toString does not depend on the id or the photo path |
| Crimes.RecordTextLayout | src/main/java/com/crimemanagement/model/Crime.java:85-93 | Crime.ToString, through RecordText: the text opens with `Crime{name='`, then the name, and closes with `}` |
| Crimes.FromDocument | src/main/java/com/crimemanagement/service/CrimeService.java:223-238 | the record carries the document's id and fields; a missing createdAt keeps the constructor's now |
| Crimes.ParseObjectId | src/main/java/com/crimemanagement/service/CrimeService.java:91 | new ObjectId(s) succeeds exactly for 24 hex digits and names the lower-cased id |
| Crimes.ValidatedIdParses | src/main/java/com/crimemanagement/util/ValidationUtils.java:129-136 | validateId accepts an id exactly when its trimmed form is a valid ObjectId |
| Crimes.HexId | src/main/java/com/crimemanagement/service/CrimeService.java:67 | a generated id is always 24 lower-case hex digits, the canonical form |
| Exceptions.FromMessage | src/main/java/com/crimemanagement/exception/CrimeManagementException.java:7-10 | user message equals message; no error code, no cause |
| Exceptions.FromMessageAndCause | src/main/java/com/crimemanagement/exception/CrimeManagementException.java:12-15 | user message equals message; no error code; the cause is kept |
| Exceptions.WithCode | src/main/java/com/crimemanagement/exception/CrimeManagementException.java:17-21 | code, message and user message are stored separately; no cause |
| Exceptions.WithCodeAndCause | src/main/java/com/crimemanagement/exception/CrimeManagementException.java:23-27 | code, message, user message and cause are stored separately |
| Exceptions.CrimeManagementException.ErrorCode | src/main/java/com/crimemanagement/exception/CrimeManagementException.java:29-31 | returns the stored code unchanged |
| Exceptions.CrimeManagementException.UserMessage | src/main/java/com/crimemanagement/exception/CrimeManagementException.java:33-35 | the user message when present, otherwise the message |
| Exceptions.MessageOnlyShowsMessage | src/main/java/com/crimemanagement/exception/CrimeManagementException.java:7-15 | the message-only constructors show the message to the user and carry no code |
| Exceptions.CodedFallsBackToMessage | src/main/java/com/crimemanagement/exception/CrimeManagementException.java:33-35 | a null user message falls back to the message; an empty one does not |
| Exceptions.ValidationError | src/main/java/com/crimemanagement/exception/ValidationException.java:5-7 | code VALIDATION_ERROR, the argument as message and as user message |
| Exceptions.FieldValidationError | src/main/java/com/crimemanagement/exception/ValidationException.java:9-13 | code VALIDATION_ERROR, with a message and a user message built from field and text |
| Exceptions.FieldErrorTexts | src/main/java/com/crimemanagement/exception/ValidationException.java:9-13 | message is `Validation failed for field '` + field + `': ` + text; user message is `Invalid ` + field + `: ` + text |
| JavaText.Trim | src/main/java/com/crimemanagement/util/ValidationUtils.java:22 | strips exactly the characters <= U+0020 at both ends; empty exactly when every character is one |
| JavaText.TrimIdempotent | src/main/java/com/crimemanagement/util/ValidationUtils.java:22 | trimming twice is trimming once |
| JavaText.ParseInt | src/main/java/com/crimemanagement/util/ValidationUtils.java:151 | Integer.parseInt: an accepted value fits in 32 bits, and the empty string is rejected |
| JavaText.ParseIntRoundTrip | src/main/java/com/crimemanagement/util/ValidationUtils.java:151 | parsing the decimal rendering of any 32-bit int gives that int back |
| JavaText.Wrap32 | src/main/java/com/crimemanagement/util/ASCIIArtGenerator.java:97 | two's-complement wrap-around: the result is in Java int range and congruent to the input modulo 2^32; values already in range are unchanged |
| JavaText.JavaDiv | src/main/java/com/crimemanagement/util/ASCIIArtGenerator.java:97 | division truncating toward zero, also for negative dividends |
| Validation.ValidateNotEmpty | src/main/java/com/crimemanagement/util/ValidationUtils.java:21-25 | passes exactly for a non-null value with content after trim; fails with (field, "cannot be empty") |
| Validation.ValidateLength | src/main/java/com/crimemanagement/util/ValidationUtils.java:27-35 | passes exactly when non-blank with trimmed length in [min, max]; blank values fail as in validateNotEmpty, others with the range message |
| Validation.ValidateName | src/main/java/com/crimemanagement/util/ValidationUtils.java:37-43 | passes exactly when the trimmed value is 2..50 ASCII letters or whitespace |
| Validation.NameWithinLength | src/main/java/com/crimemanagement/util/ValidationUtils.java:37-43 | a name that passes also passes the 2..50 length rule |
| Validation.ValidateEmail | src/main/java/com/crimemanagement/util/ValidationUtils.java:45-51 | passes exactly when the trimmed value matches the email pattern; fails on field "email" |
| Validation.EmailHasOneAt | src/main/java/com/crimemanagement/util/ValidationUtils.java:9-11 | a matching address has exactly one '@', the one the pattern splits at |
| Validation.EmailExamples | src/main/java/com/crimemanagement/util/ValidationUtils.java:9-11 | a dotted domain is accepted; a domain without a dot is rejected |
| Validation.SingleAtWithoutDomain | src/main/java/com/crimemanagement/util/ValidationUtils.java:9-11 | an address with no '.' after its only '@' never matches |
| Validation.ValidatePhone | src/main/java/com/crimemanagement/util/ValidationUtils.java:53-59 | null or blank passes; otherwise passes exactly for an optional '+' and 10..15 digits after trim |
| Validation.ValidateRole | src/main/java/com/crimemanagement/util/ValidationUtils.java:61-68 | passes exactly when the trimmed, lower-cased role is admin, special or normal |
| Validation.ValidateCrimeType | src/main/java/com/crimemanagement/util/ValidationUtils.java:70-73 | passes exactly for a trimmed length of 2..50 |
| Validation.ValidateCity | src/main/java/com/crimemanagement/util/ValidationUtils.java:75-77 | the name rule, failing on field "city" |
| Validation.ValidateCriminalName | src/main/java/com/crimemanagement/util/ValidationUtils.java:79-81 | the name rule, failing on field "criminal name" |
| Validation.ValidateDetails | src/main/java/com/crimemanagement/util/ValidationUtils.java:83-86 | passes exactly for a trimmed length of 10..500 |
| Validation.ValidatePhotoPath | src/main/java/com/crimemanagement/util/ValidationUtils.java:88-107 | null or blank passes; otherwise passes exactly when the trimmed, lower-cased path ends in one of the five image extensions |
| Validation.EndsWithListed | src/main/java/com/crimemanagement/util/ValidationUtils.java:96-101 | the flag loop finds a suffix exactly when the path ends with one of the listed ones |
| Validation.ValidateUsername | src/main/java/com/crimemanagement/util/ValidationUtils.java:109-117 | passes exactly for a trimmed value of 3..20 characters from [A-Za-z0-9_] |
| Validation.ValidatePassword | src/main/java/com/crimemanagement/util/ValidationUtils.java:119-127 | passes exactly when the trimmed length is 6..50 and the untrimmed value has an ASCII letter, a digit and no line terminator |
| Validation.ValidateId | src/main/java/com/crimemanagement/util/ValidationUtils.java:129-136 | passes exactly when the trimmed value is 24 hex digits; fails on field "ID" |
| Validation.SanitizeInput | src/main/java/com/crimemanagement/util/ValidationUtils.java:138-147 | null stays null; otherwise, apart from single spaces, the result is exactly the characters of the trimmed input that are neither `< > " ' &` nor whitespace, in order; no markup remains and whitespace appears only as single spaces, never two adjacent |
| Validation.StripMarkup | src/main/java/com/crimemanagement/util/ValidationUtils.java:145 | the first replaceAll: exactly the characters of the input other than `< > " ' &`, in order (Filter) |
| Validation.CollapseSpace | src/main/java/com/crimemanagement/util/ValidationUtils.java:146 | the second replaceAll: empty exactly when the input is; whitespace survives only as single spaces, never two adjacent; every other character comes from the input |
| Validation.CollapseSpaceKeepsText | src/main/java/com/crimemanagement/util/ValidationUtils.java:146 | for every input, the characters other than whitespace are kept, all of them and in order |
| Validation.Filter | src/main/java/com/crimemanagement/util/ValidationUtils.java:145-146 | the characters that satisfy the test, in order: a result character satisfies it and comes from the input, and an input whose characters all satisfy it is kept whole |
| Validation.UsernameSurvivesSanitizing | src/main/java/com/crimemanagement/util/ValidationUtils.java:138-147 | sanitising a valid username only trims it |
| Validation.IsValidInteger | src/main/java/com/crimemanagement/util/ValidationUtils.java:149-156 | true only when min <= max and the trimmed text starts with a digit or a sign |
| Validation.RenderedIntegerIsValid | src/main/java/com/crimemanagement/util/ValidationUtils.java:149-156 | the decimal rendering of every 32-bit int in [min, max] is accepted |
| PhotoUtils.IsImageFile | src/main/java/com/crimemanagement/util/PhotoUtils.java:48-60 | false for null; otherwise true exactly when the lower-cased name ends with one of the five supported extensions |
| PhotoUtils.GetFileExtension | src/main/java/com/crimemanagement/util/PhotoUtils.java:71-76 | "" for null or a name with no '.'; otherwise a suffix of the name that starts with '.' and holds no other '.' |
| PhotoUtils.LastDotStartsSuffix | src/main/java/com/crimemanagement/util/PhotoUtils.java:75 | when the name ends with a dot-suffix, the last '.' is where that suffix starts |
| PhotoUtils.ImageFileExtension | src/main/java/com/crimemanagement/util/PhotoUtils.java:48-76 | whenever isImageFile holds, the lower-cased extension is one of the supported ones |
| SystemUtils.CenterText | src/main/java/com/crimemanagement/util/SystemUtils.java:35-49 | text at least as wide as width is returned unchanged; otherwise (width-len)/2 spaces precede it, with no trailing padding and no more than width characters |
| ErrorHandler.HandleWithRetry | src/main/java/com/crimemanagement/util/ErrorHandler.java:83-111 | with maxRetries <= 0 nothing runs and the result is false; otherwise 1..maxRetries runs, all but the last failing and not interrupted; true exactly when the last run succeeded; a false result after runs means maxRetries runs were made or the wait was interrupted |
| CrimeRecords.Loaded | src/main/java/com/crimemanagement/service/CrimeService.java:210-214 | the records read from a cursor, one per document, in cursor order |
| CrimeRecords.LoadedMirrors | src/main/java/com/crimemanagement/service/CrimeService.java:204-221 | any prefix of a query result mirrors the collection; the whole result is complete |
| CrimeRecords.LoadedTopIsOldest | src/main/java/com/crimemanagement/service/CrimeService.java:206-214 | after loading documents in descending createdAt order (undated last), if the last document is dated then every record is dated and the last record pushed, the stack top, is the oldest |
| CrimeRecords.LoadedAscendingTopIsNewest | src/main/java/com/crimemanagement/service/CrimeService.java:210-213 | corrected load order: reading the collection oldest first puts the newest dated record on the stack top, so popping lists the latest record first; an undated top means every record carries the load time |
| CrimeRecords.LoadedUndatedOnTop | src/main/java/com/crimemanagement/service/CrimeService.java:210-235 | if any document is undated, the last one is, so the stack top is a record stamped with the load time |
| CrimeRecords.MirrorCount | src/main/java/com/crimemanagement/service/CrimeService.java:299-301 | a complete mirror has exactly as many records as the collection has documents |
| CrimeRecords.AddKeepsMirror | src/main/java/com/crimemanagement/service/CrimeService.java:64-71 | appending the inserted record keeps the mirror, and keeps it complete |
| CrimeRecords.UpdatedDoc | src/main/java/com/crimemanagement/service/CrimeService.java:94-98 | the $set writes the five fields and keeps createdAt |
| CrimeRecords.FirstWithId | src/main/java/com/crimemanagement/service/CrimeService.java:242-251 | the position of the first record with the id: none before it has the id; it is the length exactly when no record has the id |
| CrimeRecords.EditValues | src/main/java/com/crimemanagement/service/CrimeService.java:240-275 | records with the id get the five new fields; every other record is unchanged; the length is unchanged |
| CrimeRecords.EditKeepsIdentity | src/main/java/com/crimemanagement/service/CrimeService.java:240-275 | an edit never changes an id or a createdAt |
| CrimeRecords.EditKeepsMirror | src/main/java/com/crimemanagement/service/CrimeService.java:89-119 | editing the stored document and its record together keeps the mirror |
| CrimeRecords.EditKeepsComplete | src/main/java/com/crimemanagement/service/CrimeService.java:89-119 | the same edit keeps a complete mirror complete |
| CrimeRecords.RemoveValuesMembers | src/main/java/com/crimemanagement/service/CrimeService.java:277-297 | after removal no record has the id, and the survivors are exactly the other records |
| CrimeRecords.RemoveValuesKeepsOrder | src/main/java/com/crimemanagement/service/CrimeService.java:277-297 | two survivors keep their relative order |
| CrimeRecords.RemoveValuesCount | src/main/java/com/crimemanagement/service/CrimeService.java:277-297 | with distinct ids, removal drops exactly one record when the id is present and none otherwise |
| CrimeRecords.RemoveKeepsMirror | src/main/java/com/crimemanagement/service/CrimeService.java:121-146 | deleting the document and its record together keeps the mirror |
| CrimeRecords.RemoveKeepsComplete | src/main/java/com/crimemanagement/service/CrimeService.java:121-146 | the same delete keeps a complete mirror complete |
| CrimeRecords.RemoveDistinct | src/main/java/com/crimemanagement/service/CrimeService.java:277-297 | removal keeps ids distinct |
| CrimeRecords.ReverseReverse | src/main/java/com/crimemanagement/service/CrimeService.java:258-272 | popping a drained stack back restores it |
| CrimeRecords.EditAsWritten | src/main/java/com/crimemanagement/service/CrimeService.java:240-275 | the edit as written: the collection gets the lower-cased id's update, while memory gets the edit of the records whose id equals the raw argument; the two coincide when the argument is canonical |
| CrimeRecords.RemoveAsWritten | src/main/java/com/crimemanagement/service/CrimeService.java:277-297 | the delete as written: the collection loses the lower-cased id's document, while memory loses the records whose id equals the raw argument; the two coincide when the argument is canonical |
| CrimeRecords.EditAsWrittenDrifts | src/main/java/com/crimemanagement/service/CrimeService.java:89-104 | for every non-canonical id whose record is in a mirrored memory, an edit to new fields as written breaks the mirror |
| CrimeRecords.RemoveAsWrittenDrifts | src/main/java/com/crimemanagement/service/CrimeService.java:121-130 | for every non-canonical id whose record is in a mirrored memory, a delete as written breaks the mirror |
| CrimeRecords.UpperCaseEditDrifts | src/main/java/com/crimemanagement/service/CrimeService.java:240-275 | an upper-case id edits the document but not its record, breaking the mirror |
| CrimeRecords.UpperCaseDeleteDrifts | src/main/java/com/crimemanagement/service/CrimeService.java:277-297 | an upper-case id deletes the document but leaves its record, breaking the mirror |
| CrimeServices.WebSocketService.NotifyCrimeUpdate | src/main/java/com/crimemanagement/service/CrimeService.java:77-79 | one more update announced |
| CrimeServices.SharedServiceHolder.constructor | src/main/java/com/crimemanagement/service/SharedServiceHolder.java:4-5 | both slots start null |
| CrimeServices.SharedServiceHolder.SetWebSocketService | src/main/java/com/crimemanagement/service/SharedServiceHolder.java:7-13 | the notifier slot holds the argument and getWebSocketService returns it; the other slot and its getter are unchanged |
| CrimeServices.SharedServiceHolder.SetCrimeService | src/main/java/com/crimemanagement/service/SharedServiceHolder.java:15-21 | the service slot holds the argument, the last writer winning, and getCrimeService returns it; the other slot and its getter are unchanged |
| CrimeServices.ValuesOf | src/main/java/com/crimemanagement/service/CrimeService.java:148-150 | the contents of a list of Crime objects, position by position |
| CrimeServices.MirrorsDistinctObjects | src/main/java/com/crimemanagement/service/CrimeService.java:240-272 | a mirrored list never holds one object twice, so the list edit that stops at the first match and the stack edit that visits all matches agree |
| CrimeServices.WithoutIdValues | src/main/java/com/crimemanagement/service/CrimeService.java:279 | WithoutId, the removeIf over the objects: the values of the survivors are exactly the records filtered by id |
| CrimeServices.CrimeService.constructor | src/main/java/com/crimemanagement/service/CrimeService.java:27-44 | registers itself only when the holder's slot is empty; takes the holder's notifier when given none; loads the cursor; the result is Valid |
| CrimeServices.CrimeService.SetWebSocketService | src/main/java/com/crimemanagement/service/CrimeService.java:46-51 | sets the notifier, and publishes it to the holder only when non-null; records untouched |
| CrimeServices.CrimeService.DocumentToCrime | src/main/java/com/crimemanagement/service/CrimeService.java:223-238 | a fresh Crime holding the document's record |
| CrimeServices.CrimeService.LoadCrimesFromDatabase | src/main/java/com/crimemanagement/service/CrimeService.java:204-221 | both structures are cleared and then hold the records read before the cursor failed, in cursor order; a full read is complete |
| CrimeServices.CrimeService.ReadCursor | src/main/java/com/crimemanagement/service/CrimeService.java:210-214 | the loop pushes and appends each record read, keeping stack and list equal |
| CrimeServices.CrimeService.AddCrime | src/main/java/com/crimemanagement/service/CrimeService.java:52-87 | true exactly when the insert succeeds; then the document is stored under the new id and its record is appended to the list and pushed on the stack; false changes nothing; one notification exactly on success |
| CrimeServices.CrimeService.AddStored | src/main/java/com/crimemanagement/service/CrimeService.java:64-71 | the insert and the push/append together keep the invariant |
| CrimeServices.CrimeService.EditCrime | src/main/java/com/crimemanagement/service/CrimeService.java:89-119 | corrected: the in-memory match uses the canonical id; the source's behaviour is CrimeRecords.EditAsWritten, see Findings. True exactly when the id is valid, the store does not fail and the document exists; then the document and every record with that id get the five new fields; false changes nothing; one notification exactly on success |
| CrimeServices.CrimeService.UpdateInMemoryStructures | src/main/java/com/crimemanagement/service/CrimeService.java:240-275 | the same objects stay in both structures, and their contents become the edited records |
| CrimeServices.CrimeService.EditFirst | src/main/java/com/crimemanagement/service/CrimeService.java:242-251 | the list loop edits only the first object with the id (FirstWithId), which takes the five fields; every other object keeps its values |
| CrimeServices.CrimeService.DrainStack | src/main/java/com/crimemanagement/service/CrimeService.java:258-261 | popping every record onto a temporary stack empties the stack and leaves the temporary one holding its records in reverse (the same loop is at lines 285-287) |
| CrimeServices.CrimeService.PushBackEdited | src/main/java/com/crimemanagement/service/CrimeService.java:258-272 | the pop-and-push loop rebuilds the stack as it was, with every object holding the id edited |
| CrimeServices.CrimeService.DeleteCrime | src/main/java/com/crimemanagement/service/CrimeService.java:121-146 | corrected: the in-memory match uses the canonical id; the source's behaviour is CrimeRecords.RemoveAsWritten, see Findings. True exactly when the id is valid, the store does not fail and the document exists; then the document and every record with that id are gone; false changes nothing; one notification exactly on success |
| CrimeServices.CrimeService.RemoveFromInMemoryStructures | src/main/java/com/crimemanagement/service/CrimeService.java:277-297 | both structures lose exactly the records with the id, survivors in order, and stay equal |
| CrimeServices.CrimeService.PushBackKept | src/main/java/com/crimemanagement/service/CrimeService.java:285-294 | the rebuild loop pushes back exactly the objects without the id, in stack order |
| CrimeServices.CrimeService.GetAllCrimes | src/main/java/com/crimemanagement/service/CrimeService.java:148-150 | a copy of the list |
| CrimeServices.CrimeService.GetCrimesStack | src/main/java/com/crimemanagement/service/CrimeService.java:152-157 | a copy of the stack, which under the invariant is the list |
| CrimeServices.CrimeService.GetTotalCrimeCount | src/main/java/com/crimemanagement/service/CrimeService.java:299-301 | the list's size, which is the number of documents when the list is complete |
| CrimeServices.CrimeService.GetAllCrimesInFIFOOrder | src/main/java/com/crimemanagement/service/CrimeService.java:303-314 | the stack top first, leaving the stack as it was; under the invariant, the list reversed |
| CrimeServices.CrimeService.GetCrimeById | src/main/java/com/crimemanagement/service/CrimeService.java:159-172 | a fresh Crime for the stored document exactly when the id is valid, the store does not fail and the document exists; null otherwise |
| RecordListing.NewerIsTotalOrder | src/main/java/com/crimemanagement/controller/WebController.java:129-130 | the reversed nullsLast comparator is a strict total order on createdAt keys |
| RecordListing.InsertStable | src/main/java/com/crimemanagement/controller/WebController.java:129-130 | inserting into a sorted list puts the new record after every earlier record with the same key |
| RecordListing.SortSpec | src/main/java/com/crimemanagement/controller/WebController.java:129-130 | SortNewestFirst, the list sort: the sort result is sorted newest first, a permutation of its input, and keeps the input order among equal keys |
| RecordListing.UndatedFirst | src/main/java/com/crimemanagement/controller/WebController.java:129-130 | records without createdAt come before every dated record |
| RecordListing.InPeriod | src/main/java/com/crimemanagement/controller/WebController.java:133-147 | the records of one period, in list order |
| RecordListing.PeriodsPartition | src/main/java/com/crimemanagement/controller/WebController.java:133-153 | the three groups together hold every record exactly once, so their sizes add up to the total |
| RecordListing.PeriodMembers | src/main/java/com/crimemanagement/controller/WebController.java:133-147 | a group holds exactly the records of its period; undated ones fall into earlier |
| RecordListing.PeriodIsSubsequence | src/main/java/com/crimemanagement/controller/WebController.java:133-147 | each group is a subsequence of the sorted list |
| RecordListing.GroupByDate | src/main/java/com/crimemanagement/controller/WebController.java:133-147 | the loop fills the three groups with exactly the records of each period |
| SearchServices.BucketMembers | src/main/java/com/crimemanagement/service/SearchService.java:264-296 | a bucket holds exactly the records read whose lower-cased field is its key |
| SearchServices.IndexStep | src/main/java/com/crimemanagement/service/SearchService.java:272-286 | indexing one more record appends it to its key's bucket, creating the bucket if absent |
| SearchServices.IndexCounts | src/main/java/com/crimemanagement/service/SearchService.java:264-296 | the bucket sizes of an index add up to the number of records read |
| SearchServices.LookupSound | src/main/java/com/crimemanagement/service/SearchService.java:30-42 | over a complete index every result matches the value, and every record whose key equals the lower-cased value is found |
| SearchServices.LookupIgnoresCase | src/main/java/com/crimemanagement/service/SearchService.java:30-70 | two values differing only in case find the same records |
| SearchServices.FoundLoaded | src/main/java/com/crimemanagement/service/SearchService.java:245-262 | reading the matching documents gives the matching records, in collection order |
| SearchServices.SelectMembers | src/main/java/com/crimemanagement/service/SearchService.java:94-108 | the selection holds exactly the records matching every criterion |
| SearchServices.Given | src/main/java/com/crimemanagement/service/SearchService.java:77-92 | an argument adds its trimmed criterion exactly when it is non-null and non-blank |
| SearchServices.NoCriteria | src/main/java/com/crimemanagement/service/SearchService.java:77-92 | there are no filters exactly when all three arguments are null or blank |
| SearchServices.CriteriaMeaning | src/main/java/com/crimemanagement/service/SearchService.java:72-109 | a record matches the combined filter exactly when it matches every given argument |
| SearchServices.SearchService.constructor | src/main/java/com/crimemanagement/service/SearchService.java:22-28 | the indexes are those of the records read before the cursor failed |
| SearchServices.SearchService.BuildSearchIndexes | src/main/java/com/crimemanagement/service/SearchService.java:264-296 | clears all three indexes, then each is the index of the records read so far, with no rollback on a failure |
| SearchServices.SearchService.FileRecord | src/main/java/com/crimemanagement/service/SearchService.java:273-285 | filing one record extends all three indexes by it |
| SearchServices.SearchService.RebuildIndexes | src/main/java/com/crimemanagement/service/SearchService.java:298-300 | the same as a fresh build |
| SearchServices.SearchService.SearchByName | src/main/java/com/crimemanagement/service/SearchService.java:30-42 | the non-empty bucket for the lower-cased name, else the collection search on name |
| SearchServices.SearchService.SearchByCity | src/main/java/com/crimemanagement/service/SearchService.java:44-56 | the non-empty bucket for the lower-cased city, else the collection search on city |
| SearchServices.SearchService.SearchByCrimeType | src/main/java/com/crimemanagement/service/SearchService.java:58-70 | the non-empty bucket for the lower-cased type, else the collection search on crime type |
| SearchServices.SearchService.SearchByDetails | src/main/java/com/crimemanagement/service/SearchService.java:136-139 | always the collection search on details, never an index |
| SearchServices.SearchService.SearchInDatabase | src/main/java/com/crimemanagement/service/SearchService.java:245-262 | the records of the matching documents in collection order; empty when the store fails |
| SearchServices.SearchService.ReadAll | src/main/java/com/crimemanagement/service/SearchService.java:251-253 | the cursor loop reads one record per document, in order |
| SearchServices.SearchService.AdvancedSearch | src/main/java/com/crimemanagement/service/SearchService.java:72-109 | empty without criteria or on a store failure; otherwise the records of the documents matching all criteria |
| SearchServices.SearchService.Filters | src/main/java/com/crimemanagement/service/SearchService.java:77-92 | the filter list is built name, then city, then crime type |
| SearchServices.SearchService.GetCrimeStatistics | src/main/java/com/crimemanagement/service/SearchService.java:330-338 | each crime-type key mapped to its bucket size |
| SearchServices.StatisticsTotal | src/main/java/com/crimemanagement/service/SearchService.java:330-338 | the statistics add up to the number of records indexed |
| WebControllers.KindOf | src/main/java/com/crimemanagement/controller/WebController.java:100-127 | "id", "city", "crimetype" and "details" (any case) select their branch; everything else searches by name |
| WebControllers.KindIgnoresCase | src/main/java/com/crimemanagement/controller/WebController.java:102 | search types differing only in case take the same branch |
| WebControllers.ValuesOfReverse | src/main/java/com/crimemanagement/controller/WebController.java:123-126 | reading a reversed list of objects gives the records reversed |
| WebControllers.WebController.constructor | src/main/java/com/crimemanagement/controller/WebController.java:30-40 | reuses the registered CrimeService and gives it the notifier, or creates and registers one; then builds a new SearchService over the collection |
| WebControllers.WebController.SharedCrimeService | src/main/java/com/crimemanagement/controller/WebController.java:31-38 | the registered service with its records untouched, or a fresh registered one |
| WebControllers.WebController.ListsFifoOrder | src/main/java/com/crimemanagement/controller/WebController.java:123-126 | without a search term the candidates are the list reversed: the records added since the load, newest first, then the loaded records from the oldest to the newest |
| WebControllers.WebController.SelectRecords | src/main/java/com/crimemanagement/controller/WebController.java:100-127 | the records the switch selects, defined as Candidates: a blank or missing term lists the stack top first; otherwise the search of the selected branch, where "id" yields the one record or none |
| WebControllers.WebController.CrimeRecords | src/main/java/com/crimemanagement/controller/WebController.java:93-156 | the candidates sorted newest first; the total is their number and the sum of the group sizes; the three groups are the records of today, yesterday and earlier; the search attributes are set only when a search ran |
| Users.ValidRoleLowers | src/main/java/com/crimemanagement/service/UserService.java:113-118 | IsValidRole: a role is valid exactly when it is non-null and lower-cases to admin, special or normal |
| Users.ValidRolePassesValidation | src/main/java/com/crimemanagement/service/UserService.java:113-118 | every role the service accepts passes validateRole |
| Users.PaddedRoleRejected | src/main/java/com/crimemanagement/service/UserService.java:113-118 | the converse fails: " admin" passes validateRole, which trims, but the service rejects it |
| Users.ListingStep | src/main/java/com/crimemanagement/service/UserService.java:50-56 | reading one more account keeps the listing invariant |
| Users.UserService.AddUser | src/main/java/com/crimemanagement/service/UserService.java:18-45 | true exactly when the store works, the email is new and the role is valid; then exactly one account is added, with the role lower-cased; otherwise nothing changes |
| Users.UserService.GetAllUsers | src/main/java/com/crimemanagement/service/UserService.java:47-62 | one entry per stored account, each email once, the role kept and the password masked as "***"; a failing cursor leaves the entries read so far |
| Users.UserService.DeleteUser | src/main/java/com/crimemanagement/service/UserService.java:64-86 | "admin" is never deleted; otherwise true exactly when the store works and the account existed, which is then gone |
| Users.UserService.UpdateUserRole | src/main/java/com/crimemanagement/service/UserService.java:88-111 | true exactly when the role is valid, the store works and the account exists; then only that account's role changes, to the lower-cased role |
| Auth.RolesNest | src/main/java/com/crimemanagement/service/AuthService.java:56-80 | Permits, the role × action table: whatever special may do, admin may; whatever normal may do, special may |
| Auth.RolesDiffer | src/main/java/com/crimemanagement/service/AuthService.java:63-71 | only admin adds users; normal may not delete records |
| Auth.OtherRolesOnlyRead | src/main/java/com/crimemanagement/service/AuthService.java:63-78 | any role other than exactly "admin" or "special" may only view and search |
| Auth.UnknownActionDenied | src/main/java/com/crimemanagement/service/AuthService.java:73-78 | an action outside the table is denied to every role |
| Auth.AdminMayAll | src/main/java/com/crimemanagement/service/AuthService.java:56-80 | admin may do whatever any of the three roles may |
| Auth.AuthService.constructor | src/main/java/com/crimemanagement/service/AuthService.java:12-14 | nobody is logged in |
| Auth.AuthService.Login | src/main/java/com/crimemanagement/service/AuthService.java:16-39 | true exactly when an account has that email and that password; the user is then logged in with the account's role; a failure keeps the previous user |
| Auth.AuthService.Logout | src/main/java/com/crimemanagement/service/AuthService.java:41-46 | nobody is logged in afterwards; no change when nobody was |
| Auth.AuthService.HasPermission | src/main/java/com/crimemanagement/service/AuthService.java:56-80 | allowed exactly when someone is logged in and the table permits their role the action |
| Auth.AuthService.GetCurrentUserRole | src/main/java/com/crimemanagement/service/AuthService.java:82-84 | null exactly when nobody is logged in, else the user's role |

## Left out

- The MongoDB driver. The collection is a map from id to document.
  - Driver failures are boolean parameters, or a cursor position after which reading throws.
  - A generated id that collides with a stored one makes the insert fail.
- CrimeServices.CrimeService.EditCrime, Users.UserService.UpdateUserRole: an update's modified count is taken as 1 exactly when the document exists. The driver's rule that an update to identical values reports 0, so that the source returns false, is not modelled.
- SearchServices.SearchService.BuildSearchIndexes, SearchServices.SearchService.SearchInDatabase, WebControllers.WebController.CrimeRecords: one clock reading `now` stamps every undated document turned into a record during a load, an index build or a search. In the source each `new Crime()` reads `LocalDateTime.now()` again, so undated documents get non-decreasing stamps in read order; the newest-first sort then lists such records in reverse read order where the clock advanced between them, while here they tie and keep read order. The same holds for CrimeServices.CrimeService.LoadCrimesFromDatabase.
- Regular expressions. A search value is matched as a case-insensitive literal substring. Metacharacters and PatternSyntaxException are not modelled.
- Case folding is ASCII only. Locale rules are not modelled.
- The clock. `LocalDateTime.now()` and `LocalDate.now()` are the parameters `now` and `today`.
- Notification. WebSocketService's transport, its thread and its resend are left out. The notifier only counts announced updates, in a ghost counter.
- Java nulls. A null field of a Crime is not modelled: record fields are strings, and only id and createdAt are optional. Null arguments are modelled (as Option) where the source tests for them.
- Identity of records. SearchService and the web listing work on record values. The records they build are their own copies and nothing mutates them.
- User.java is not part of this model. A user is inferred to be an email, a password and a role.
- Users.UserService.GetAllUsers: returns the accounts in an unspecified order, because the users collection is a map in this model.
- Auth.AuthService.GetCurrentUser and Auth.AuthService.IsLoggedIn are plain readers of the session and carry no contract of their own.
- Validation.IsValidInteger: states only necessary conditions and the completeness lemma RenderedIntegerIsValid. It does not restate full parseInt acceptance, because that is its own body.
- AsciiArt.DisplayTestPattern: widths above IntMax / 255 are excluded, because x * 255 would overflow there. Printing the pattern and the rule line after it is left out.
- WebControllers.WebController.CrimeRecords: the searchType request default "name" is supplied by the caller. Building the Spring model object is left out.
- The file-serving endpoints of WebController (getPhoto, getDefaultPhoto, getFavicon) are left out.
- The console UI, prompting loops and display printers are left out: MenuManager, InputValidator, EnhancedInputValidator, CrimeInputHelper.
- Bootstrap, demo code and thin wrappers are left out: the application classes, ServiceConfig, DataStructureManager, SafeOperations, ErrorHandler.handleException.
- Image I/O, scaling and floating-point brightness in ASCIIArtGenerator are left out, as are file-size formatting, PhotoService and file existence checks.
- DatabaseException and AuthenticationException are not modelled. No modelled code throws them.
- Validation.ValidateLength, Validation.ValidateCrimeType, Validation.ValidateDetails, Validation.ValidateUsername, Validation.ValidatePassword: a length is the number of characters, while Java's `length()` counts UTF-16 code units. A character outside the Basic Multilingual Plane counts 2 in Java and 1 here, so, e.g., details of 5 emoji pass the 10..500 check in Java and fail it here.
- SystemUtils.CenterText: the same character count; Java pads by UTF-16 code units, so text with characters outside the Basic Multilingual Plane is padded differently.
- JavaText.ParseInt, Validation.IsValidInteger: only the ASCII digits 0-9 are accepted. Integer.parseInt also accepts the decimal digits of other scripts (Character.digit), which the model rejects.
- Crimes.Agrees, CrimeServices.CrimeService.AddCrime: a timestamp is a whole number of milliseconds. In the source, addCrime keeps `LocalDateTime.now()` in memory at full (sub-millisecond) precision, while the document stores `Date.from(...)`, truncated to milliseconds, and a reload reads that truncation back. So a record added at 10:00:00.123456 holds .123456 in memory and .123 in its document; the model's agreement of a record's createdAt with its document holds only because both are milliseconds. The web sort of two records added within the same millisecond orders them by their sub-millisecond times in the source; here they tie and keep list order.
- WebControllers.WebController.Candidates, WebControllers.WebController.CrimeRecords: the documents the name, city, type and details searches read are a parameter, which the caller supplies as the same collection that `crimeService.store` holds; in the source both are the one `crimes` collection, and the model does not require the two to agree.
- ErrorHandler.HandleWithRetry: the operation's outcomes and interrupted waits are given as functions of the attempt number, and the sleep itself is left out.

## Findings

| source | as written | input that shows it | evidently intended | confidence | as-written member | corrected member |
|---|---|---|---|---|---|---|
| src/main/java/com/crimemanagement/service/CrimeService.java:240-297 | editCrime and deleteCrime update the collection through `new ObjectId(crimeId)`, which accepts upper-case hex and names the lower-case id. The in-memory structures are then matched against the raw `crimeId` with a case-sensitive `equals`. | editing or deleting a stored record through its id written in upper-case hex, e.g. `AAAAAAAAAAAAAAAAAAAAAAAA` for the stored `aaaaaaaaaaaaaaaaaaaaaaaa`: the collection changes and the list and stack do not | match the in-memory records against the id the ObjectId names (its canonical lower-case form), so memory follows the collection | not executed | CrimeRecords.EditAsWritten, CrimeRecords.RemoveAsWritten, CrimeRecords.EditAsWrittenDrifts, CrimeRecords.RemoveAsWrittenDrifts, CrimeRecords.UpperCaseEditDrifts, CrimeRecords.UpperCaseDeleteDrifts | CrimeServices.CrimeService.EditCrime, CrimeServices.CrimeService.DeleteCrime |
| src/main/java/com/crimemanagement/service/CrimeService.java:206-214 | loadCrimesFromDatabase reads the collection sorted by `Sorts.descending("createdAt")` and pushes each record in that order, so the stack top is the oldest loaded record. The stack's field comment, displayAllCrimes' "Latest First" heading and getAllCrimesInFIFOOrder ("latest first") all promise the latest record on top. | two stored documents created at t1 < t2: after the load the stack holds the t2 record below the t1 record, and getAllCrimesInFIFOOrder returns the t1 record first | read the collection oldest first (`Sorts.ascending("createdAt")`), so the last record pushed is the newest and popping lists the latest first; the model's load takes the cursor order as given, so it covers that order too | not executed | CrimeRecords.LoadedTopIsOldest | CrimeRecords.LoadedAscendingTopIsNewest |
