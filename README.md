# resume_app: a verified model of the resume book's core

resume_app is a resume book. An administrator uploads PDF resumes with a
name, a major, a graduation year and comma-separated company and keyword
lists. Visitors search and filter them. This project models, in Dafny, the
parts of the program that decide what is stored, what is shown and who
gets through:

- `resume_controller.dfy` (module `ResumeController`): the resume
  endpoints of the API (`uploadResume`, `updateResume`, `deleteResume`) as
  methods of a `Backend` class. The class holds the object storage bucket,
  the Resume table, the two join tables and the Company and Keyword
  tables. The read paths (`getResumeById`, `searchResumes`, `getFilters`)
  and their `isActive` filter are functions of that state.
- `tags.dfy` (module `Tags`): the Company or Keyword table as a
  `TagTable` class. Its `FindOrCreate` and `FindOrCreateAll` methods are
  `findOrCreate` and the `findOrCreateCompanies` / `findOrCreateKeywords`
  loop, proved against the pure function `InternAll`.
- `utils.dfy` (module `Utils`): the front-end helpers of `src/lib/utils.js`.
- `search.dfy` (module `Search`): the client-side filter of the search page
  and its filter toggle.
- `auth.dfy` (module `Auth`): the Bearer-token middleware of the API. A
  pure decision function is applied by a `Request` class whose fields are
  `req.user`, the response sent and the number of `next()` calls.
- `page_guard.dfy` (module `PageGuard`): the page-level redirect
  middleware of the web front end.
- `upload_filter.dfy` (module `UploadFilter`): the multer file filter,
  including Node's POSIX `path.extname`.
- `text.dfy` (module `Text`): the JavaScript string operations the others
  share: `trim` over the ECMAScript white-space set, `split`, `join`,
  ASCII `toLowerCase`, `startsWith`, `includes` and the name sanitiser.
  `wrappers.dfy` holds `Option`.

Each write runs in a transaction that covers the Resume row and its join
rows. The object storage and the tag tables are outside that transaction:
an object stored, or a tag created, before a failure stays. The step that
throws is chosen by a `Fault` parameter. The clock (`Date.now()`), the
token verifier and the outcome of the storage delete are parameters too;
`deleteFile` in backend/src/utils/s3.js:57-65 catches and logs a failed
delete, so the controller never sees one. The 400, 403 and
404 returns of the controller leave the transaction open: it is neither
committed nor rolled back. The model reports this as `TxOpen`, and every
contract states that nothing changes in that case.

The parsed company and keyword lists keep duplicate and differently-cased
names. `uploadResume` never deletes a stored object when a later step
fails.

## Model

| member | source | states |
|---|---|---|
| Utils.ParseStringToArray | src/lib/utils.js:16-19 | a missing or empty input gives []; every entry is non-empty, trimmed and free of commas |
| Utils.ParsedAreEntries | src/lib/utils.js:16-19 | what parsing returns are list entries, the values formatting reads back |
| Utils.SplitTrimmedJoin | src/lib/utils.js:8-18 | splitting, trimming and filtering a ", "-joined list of entries gives the list back, even after leading white space |
| Utils.FormatThenParse | src/lib/utils.js:6-19 | parsing what formatting produced gives the same entries, in order and with duplicates |
| Utils.ParseConcatenates | src/lib/utils.js:16-19 | for any strings, the entries of `s + "," + t` are those of `s` followed by those of `t`, in order and with repeats |
| Utils.EmptyParsesToNothing | src/lib/utils.js:18 | the empty piece yields no entry |
| Utils.DuplicatesKept | src/lib/utils.js:16-19 | an entry given twice is listed twice |
| Utils.FormatArrayToString | src/lib/utils.js:6-9 | definition: "" for a non-array, otherwise the values joined with ", "; FormatThenParse states its round trip |
| Utils.ParseIsNormalising | src/lib/utils.js:6-19 | formatting a parsed list and parsing it again changes nothing |
| Utils.GenerateUniqueFilename | src/lib/utils.js:26-30 | definition: the sanitised name, "_", the timestamp and ".pdf"; FilenameRoundTrip states what it encodes |
| Utils.FilenameRoundTrip | src/lib/utils.js:26-30 | the generated name parses back to the sanitised name and the timestamp, ends in ".pdf" and sanitises to lower-case letters, digits and `_` |
| Utils.IsValidPdf | src/lib/utils.js:37-40 | true exactly when a file is given and its type is "application/pdf" |
| Utils.FormatGraduationYear | src/lib/utils.js:47-50 | the label is "" exactly when the year is falsy (empty string, 0, absent) |
| Utils.GraduationLabelReadsBack | src/lib/utils.js:47-50 | a truthy year's label is "Class of " followed by the year, and a positive number reads back as itself |
| Utils.TruncateString | src/lib/utils.js:58-61 | strings that fit and "" are kept; longer ones become their first maxLength characters (0 when maxLength is negative) followed by "..." |
| Utils.TruncateIdempotent | src/lib/utils.js:58-61 | truncating twice with the same limit equals truncating once |
| Utils.TruncateDefault | src/lib/utils.js:58-61 | with the default limit, strings up to 100 characters are kept and longer ones become 103 characters that start with their first 100 |
| Utils.FirstIndexOf | src/lib/utils.js:69 | the index is the first occurrence of the character, or the length when it is absent |
| Utils.IsValidEmail | src/lib/utils.js:68-71 | the character-level reading of the e-mail test; EmailMatchesPattern ties it to the pattern's shape |
| Utils.ValidEmailMatches | src/lib/utils.js:68-71 | an address accepted by the character-level test is matched by the regular expression's shape |
| Utils.MatchesAreValidEmails | src/lib/utils.js:68-71 | an address with the regular expression's shape passes the character-level test |
| Utils.EmailMatchesPattern | src/lib/utils.js:68-71 | the two descriptions of `/^[^\s@]+@[^\s@]+\.[^\s@]+$/` agree on every string |
| Search.Keep | src/app/search/page.js:77-113 | definition of the filter callback, with its early returns; KeepIsConjunction states its meaning |
| Search.FilterResumes | src/app/search/page.js:77-113 | definition of `mockResumes.filter(...)`; FilteredMembership and FilteredIsSubsequence state its properties |
| Search.KeepIsConjunction | src/app/search/page.js:77-113 | a card is kept exactly when the query matches (or is empty) and each non-empty filter is met |
| Search.FilterPositions | src/app/search/page.js:77-113 | the filtered list sits at strictly increasing positions of the input |
| Search.FilteredIsSubsequence | src/app/search/page.js:77-113 | filtering keeps the input order and drops elements only |
| Search.FilteredMembership | src/app/search/page.js:77-113 | a card is in the result exactly when it is in the input and is kept |
| Search.NoCriteriaKeepsAll | src/app/search/page.js:77-113 | an empty query and empty filters keep every card |
| Search.WithValues | src/app/search/page.js:133-142 | the chosen filter list becomes the new list and the other two lists stay |
| Search.RemoveAll | src/app/search/page.js:135 | removing a value never lengthens the list |
| Search.RemoveAllMembers | src/app/search/page.js:135 | the result holds exactly the elements different from the value |
| Search.RemoveAllAbsent | src/app/search/page.js:135 | removing an absent value returns the list unchanged |
| Search.RemoveAllAppend | src/app/search/page.js:135 | removal distributes over concatenation |
| Search.RemoveAllDistinct | src/app/search/page.js:135 | removal keeps a list free of duplicates |
| Search.HandleFilterChange | src/app/search/page.js:127-145 | definition of the state update; HandleFilterChangeEffect states its effect |
| Search.HandleFilterChangeEffect | src/app/search/page.js:127-145 | a selected value is removed, every occurrence of it; an unselected one is appended; the other filter lists do not change |
| Search.ToggleTwiceRestores | src/app/search/page.js:127-145 | selecting and then deselecting an unselected value restores the filters |
| Search.ToggleKeepsDistinct | src/app/search/page.js:127-145 | toggling keeps a filter list free of duplicates |
| Auth.BearerToken | backend/src/middleware/auth.js:14 | the token is the longest space-free prefix of the text after "Bearer " |
| Auth.BearerTokenOfSimpleHeader | backend/src/middleware/auth.js:14 | "Bearer " followed by a space-free token gives that token |
| Auth.AdminDecision | backend/src/middleware/auth.js:4-38 | definition of the middleware's decision; AdminDecisionCases states each outcome |
| Auth.AdminDecisionCases | backend/src/middleware/auth.js:4-38 | 401 "no token" exactly when the header is missing or lacks "Bearer "; 401 "invalid" exactly when the token does not verify; 403 exactly when the role is not "admin"; allowed otherwise |
| Auth.Request.AuthenticateAdmin | backend/src/middleware/auth.js:4-38 | on denial sends the status and message and never calls next; on success sets the user to the admin and calls next once without sending |
| Auth.Request.Authenticate | backend/src/middleware/auth.js:41-43 | behaves as AuthenticateAdmin |
| Auth.IsAdminDecision | backend/src/middleware/auth.js:46-52 | allowed exactly when a user is attached and its role is "admin"; otherwise the 403 with "Access denied. Admin privileges required." |
| Auth.Request.IsAdmin | backend/src/middleware/auth.js:46-52 | keeps the user; sends 403 or calls next once, as the decision says |
| Auth.AuthenticatedPassesIsAdmin | backend/src/middleware/auth.js:28-52 | the user `authenticateAdmin` attaches always passes `isAdmin` |
| PageGuard.RequiresAuth | src/middleware.js:12-20 | definition of the protected-path test; RequiresAuthPrefixes states it |
| PageGuard.Middleware | src/middleware.js:4-34 | definition of the guard's answer; MiddlewareCases states each case |
| PageGuard.RequiresAuthPrefixes | src/middleware.js:12-20 | a path is protected exactly when it starts with "/admin" or "/profile" |
| PageGuard.LoginIsNotProtected | src/middleware.js:12-30 | the login pages are not protected |
| PageGuard.MiddlewareCases | src/middleware.js:4-34 | redirect to login with `from` when protected and tokenless; redirect home when on login with a token; pass through otherwise |
| PageGuard.AdministratorIsProtected | src/middleware.js:18-27 | the guard function would redirect a tokenless "/administrator", because it tests the raw prefix; the route matcher keeps the middleware from running there |
| PageGuard.EmptyCookieIsNoToken | src/middleware.js:9-30 | an empty token cookie acts as no cookie |
| PageGuard.NoRedirectLoop | src/middleware.js:23-32 | a redirect never points to a path that would redirect again under the same token |
| UploadFilter.StripTrailingSlashes | backend/src/middleware/upload.js:11 | the result is a prefix of the path that does not end in "/", and only "/" characters were removed |
| UploadFilter.BaseName | backend/src/middleware/upload.js:11 | the base name contains no "/", and a name without "/" is its own base name |
| UploadFilter.BaseNameIsLastComponent | backend/src/middleware/upload.js:11 | the base name is the suffix of the path, without trailing slashes, after its last "/" |
| UploadFilter.ExtName | backend/src/middleware/upload.js:11 | definition of Node's POSIX `path.extname`; the ExtName lemmas state its properties |
| UploadFilter.ExtNameIgnoresDirectory | backend/src/middleware/upload.js:11 | a directory part does not change the extension |
| UploadFilter.ExtNameIgnoresTrailingSlash | backend/src/middleware/upload.js:11 | a trailing "/" does not change the extension, so "a/b.pdf/" has the extension ".pdf" |
| UploadFilter.FileFilter | backend/src/middleware/upload.js:8-18 | definition of the filter callback; FileFilterDecision states the decision |
| UploadFilter.ExtensionContainingPdfAccepted | backend/src/middleware/upload.js:9-13 | both tests look for "pdf" anywhere, so any lower-case extension containing it, such as ".notpdf", is accepted |
| UploadFilter.FileFilterDecision | backend/src/middleware/upload.js:8-18 | accepted exactly when both the mimetype and the lower-cased extension contain "pdf"; otherwise rejected with "Only PDF files are allowed!" |
| UploadFilter.ExtNameOfPlainName | backend/src/middleware/upload.js:11 | the extension of a plain "stem.ext" is ".ext" |
| UploadFilter.ExtNameShape | backend/src/middleware/upload.js:11 | an extension is empty or starts with "." |
| UploadFilter.ExtNameWithoutDot | backend/src/middleware/upload.js:11 | a name without "." has no extension |
| UploadFilter.NoExtensionRejected | backend/src/middleware/upload.js:8-18 | a file name without "." is rejected whatever its mimetype |
| UploadFilter.UpperCaseExtensionAccepted | backend/src/middleware/upload.js:8-18 | "CV.PDF" with type application/pdf is accepted |
| UploadFilter.DotFileRejected | backend/src/middleware/upload.js:8-18 | the file name ".pdf" has no extension and is rejected |
| UploadFilter.BrowserCheckPassesMimetypeTest | backend/src/middleware/upload.js:9-10 | a file the browser check accepts passes the server's mimetype test |
| Tags.IndexOf | backend/src/controllers/resumeController.js:11-13 | the position of the first row with the name |
| Tags.InternAll | backend/src/controllers/resumeController.js:6-17 | definition of the table after finding or creating each name in turn; the InternAll lemmas state its properties |
| Tags.InternAllExtends | backend/src/controllers/resumeController.js:6-17 | finding or creating never removes or reorders existing rows |
| Tags.InternAllContents | backend/src/controllers/resumeController.js:6-17 | afterwards the table has exactly the old names and the names looked up |
| Tags.InternAllDistinct | backend/src/controllers/resumeController.js:11-13 | a table with unique names keeps them unique |
| Tags.InternAllSnoc | backend/src/controllers/resumeController.js:10-15 | one more loop step interns one more name |
| Tags.TagIds | backend/src/controllers/resumeController.js:77 | the ids stored for the join are exactly the ids of the returned tags |
| Tags.TagIdsJoin | backend/src/controllers/resumeController.js:76-77 | the stored ids name exactly the listed names, and the returned names are the list |
| Tags.TagTable.FindOrCreate | backend/src/controllers/resumeController.js:11-13 | returns the row with the name, creating it at the end only when absent; names stay unique |
| Tags.TagTable.FindOrCreateAll | backend/src/controllers/resumeController.js:6-17 | [] for an empty list; one tag per entry, in order, named by the trimmed entry; a throwing k-th call leaves k tags created; the table equals InternAll of the old table and the names |
| Tags.TagTable.FindOrCreateEach | backend/src/controllers/resumeController.js:9-16 | the loop: tags named as the keys, in order, the table grown by InternAll, every tag a row of the table |
| ResumeController.ParseList | backend/src/controllers/resumeController.js:50-51 | definition: [] for an absent string, otherwise the split, trim and filter chain; ParseListEntriesTrimmed and Text.SplitTrimmedAppend state its properties |
| ResumeController.S3Key | backend/src/controllers/resumeController.js:54-56 | definition of the storage key; S3KeyShape states its shape |
| ResumeController.S3KeyShape | backend/src/controllers/resumeController.js:54-56 | the key is "resumes/" followed by the front end's generated file name: the sanitised name, "_", the timestamp and ".pdf" |
| ResumeController.S3KeysDiffer | backend/src/controllers/resumeController.js:54-56 | equal keys mean equal timestamps and equal sanitised names |
| ResumeController.SoftDelete | backend/src/controllers/resumeController.js:354-356 | definition: the row with its active flag cleared; SoftDeleteHides states its effect |
| ResumeController.SoftDeleteHides | backend/src/controllers/resumeController.js:354-356 | soft deletion keeps the row, and every read path then sees the table as if the row were removed |
| ResumeController.DeletedIsNotFound | backend/src/controllers/resumeController.js:341-347 | a deleted resume is not found and not listed |
| ResumeController.Revise | backend/src/controllers/resumeController.js:275-278 | definition of the field updates; ReviseChangesOnlySupplied states their effect |
| ResumeController.ReviseChangesOnlySupplied | backend/src/controllers/resumeController.js:275-278 | each truthy body field replaces the stored one, the others stay; file, owner and active flag never change |
| ResumeController.ReviseEmptyBody | backend/src/controllers/resumeController.js:275-278 | an empty body changes nothing |
| ResumeController.ParseListEntriesTrimmed | backend/src/controllers/resumeController.js:50-51 | the parsed lists have trimmed entries |
| ResumeController.FindOrCreateList | backend/src/controllers/resumeController.js:6-31 | succeeds exactly when no lookup throws; the ids then name exactly the list and the table is InternAll of the old one and the list; rows are only appended |
| ResumeController.LinkTags | backend/src/controllers/resumeController.js:75-81 | the join entry of the resume becomes the rows named in the list and no other join entry changes, unless a lookup or the set call throws |
| ResumeController.LinkAll | backend/src/controllers/resumeController.js:282-294 | runs the company step and then the keyword step for the lists given; succeeds exactly when no step for a given list throws; a list not given leaves its joins and table as they were |
| ResumeController.Backend.GetResumeById | backend/src/controllers/resumeController.js:192-247 | definition: the view of the row when it exists and is active, none otherwise; SoftDeleteHides states what deletion does to it |
| ResumeController.Backend.SearchResumes | backend/src/controllers/resumeController.js:109-189 | definition: the active rows matching the major and graduation year given; SoftDeleteHides and DeletedIsNotFound state what deletion does to it |
| ResumeController.Backend.GetFilters | backend/src/controllers/resumeController.js:378-421 | definition: the majors, years and companies of active rows; SoftDeleteHides states what deletion does to it |
| ResumeController.Backend.UploadResume | backend/src/controllers/resumeController.js:34-106 | 400 without a file or a required field, and nothing changes; 201 exactly when no step throws, with a new id, the row, the stored object and the joins for the parsed lists, committed; on a throw 500, rolled back, the row and joins unchanged, the object kept unless its upload threw, and the tag tables only grown |
| ResumeController.Backend.RecordUpload | backend/src/controllers/resumeController.js:65-84 | the create, tag and commit steps succeed exactly when no step throws; they then add the row under the next id with the joins of both lists; otherwise the row and joins stay as before |
| ResumeController.Backend.UpdateResume | backend/src/controllers/resumeController.js:250-331 | a throwing `Resume.findOne` gives 500 and a rollback with nothing changed; otherwise 404 when no active row, 403 when neither admin nor owner, with nothing changed; 200 exactly when no step throws, with the revised row, the lists given replacing the joins, and the reloaded view; otherwise 500 and rolled back |
| ResumeController.Backend.RecordUpdate | backend/src/controllers/resumeController.js:282-306 | the revised row and the replaced joins are committed exactly when no later step throws; otherwise the row and joins stay as before |
| ResumeController.Backend.DeleteResume | backend/src/controllers/resumeController.js:334-375 | a throwing `Resume.findOne` gives 500 and a rollback with nothing changed; otherwise 404 and 403 as for updates; 200 exactly when neither the save nor the commit throws, with the row soft-deleted and the object deleted when the storage call succeeded; a failed commit restores the row while the object may already be gone |
| Text.Split | src/lib/utils.js:18 | at least one piece, and no piece contains the separator |
| Text.JoinSplit | src/lib/utils.js:18 | joining the pieces with the separator gives the string back |
| Text.TrimAll | src/lib/utils.js:18 | each element is trimmed, in place |
| Text.DropEmpty | src/lib/utils.js:18 | an element is kept exactly when it is non-empty |
| Text.DropEmptyAppend | src/lib/utils.js:18 | the filter works element by element, so it keeps order and repeated elements |
| Text.TrimAllAppend | src/lib/utils.js:18 | trimming each element distributes over concatenation |
| Text.SplitAppend | src/lib/utils.js:18 | splitting `s + sep + t` gives the pieces of `s` followed by the pieces of `t` |
| Text.SplitTrimmedAppend | backend/src/controllers/resumeController.js:50-51 | the entries of `s + "," + t` are those of `s` followed by those of `t` |
| Text.Trim | backend/src/controllers/resumeController.js:12 | definition of `trim`: drops the leading and the trailing ECMAScript white space; TrimShape states its meaning |
| Text.Join | src/lib/utils.js:8 | definition of `join`; JoinSplit and SplitTrimmedJoin state what it gives back |
| Text.SplitTrimmed | backend/src/controllers/resumeController.js:50-51 | definition of the split, trim and filter chain; SplitTrimmedEntries and SplitTrimmedAppend state its properties |
| Text.SplitTrimmedEntries | src/lib/utils.js:18 | every parsed entry is non-empty, trimmed and comma-free |
| Text.TrimShape | backend/src/controllers/resumeController.js:12 | the trimmed string is the middle of the input between leading and trailing white space, and is itself trimmed |
| Text.TrimOfTrimmed | backend/src/controllers/resumeController.js:12 | trimming a trimmed string changes nothing |
| Text.TrimIdempotent | backend/src/controllers/resumeController.js:12 | trimming twice equals trimming once |
| Text.Lower | src/app/search/page.js:80-88 | the ASCII lower-casing of each character, length kept |
| Text.LastIndexOf | backend/src/middleware/upload.js:11 | the position of the last occurrence of the character, or none when absent |
| Text.NatToString | src/lib/utils.js:29 | a non-empty run of decimal digits |
| Text.DigitsValueOfNatToString | src/lib/utils.js:29 | the decimal form of a timestamp reads back as the timestamp |
| Text.Sanitize | src/lib/utils.js:27 | keeps the length; each character is the sanitised form of the input's character |
| Text.SanitizeProperties | src/lib/utils.js:27 | only lower-case letters, digits and `_`; letters and digits survive lower-cased; sanitising twice equals sanitising once |

## Left out

- `debounce` in src/lib/utils.js works with timers and closures; the search page's debounced call is left out with it.
- The React components, their state setters and the mock data of the search page are not modelled; only the filter predicate and the toggle are.
- `searchResumes`: the `ILIKE` query over names, companies and keywords, the `company` include filter and the `createdAt` ordering are left out. The model keeps the `isActive`, `major` and `graduationYear` conditions and returns the set of ids.
- `getFilters` and the read views give sets of names. The source's `DISTINCT` majors and years are sets, but its company list can repeat a name once per resume; neither multiplicity nor order is kept.
- The `config.matcher` of src/middleware.js decides when the framework runs the middleware; that routing is not modelled.
- `toLowerCase` is modelled on ASCII letters only. Strings are sequences of characters, not UTF-16 code units. Body values that are not strings are not modelled; an absent field is "".
- The Resume model declares `uploadedBy` as an INTEGER column while the authentication middleware sets the id "admin". The model stores the id as a string and does not model the database's reaction to the mismatch.
- A failing `commit` is modelled as a rollback followed by a 500. What the database does with a partly committed transaction is not modelled.
- The Resume id sequence (`nextId`) is not rolled back on failure, as with an auto-increment column.
- Utils.FormatGraduationYear: the year is a string, an integer or absent. Fractional numbers, `NaN` and other values are not modelled.
- The join tables are sets of tag ids, so a name listed twice links its tag once. The source's `setCompanies` / `setKeywords` receive the repeated instance, and what the database does with the duplicate join row is not modelled.
- The response shape is left out: the `Reply` constructors stand for the 201 and 200 responses with their fixed messages, and only error replies carry status and message.
- The 500 branch of `authenticateAdmin` only catches errors thrown by code outside the model (the header object, the verifier). The model's verifier is a total function, so that branch is not represented.
- `truncateString` with a `null`, `undefined` or `NaN` argument is not modelled; the string is a sequence and the limit an integer.
- The storage client, credentials, signed URLs and the network are left out: the bucket is a map from key to bytes, and `uploadFile` returns the object URL built from bucket and region.
- `Date.now()` is a parameter (`timestamp`), and so is the JWT verifier `verifyToken`.
- The outcome of `deleteFile` is a parameter (`deleted`), because the source logs a failed delete and carries on.
- The multer size limit (`UPLOAD_LIMIT`) and memory storage are left out; the filter is modelled as a function of the mimetype and the original name.
- The row and join changes of an upload or update are staged and written at commit. Other requests cannot run in between in this sequential model, so this matches the transaction's isolation; concurrency is not modelled.
- ResumeController.Backend.UploadResume: on a failed upload the contract states only that the tag tables grew by appending, not which rows were added. Tags.TagTable.FindOrCreateAll states the exact table for the calls made.
- ResumeController.Backend.UpdateResume: on a failed update the contract states only that the tag tables grew by appending, for the same reason.
- Tags.TagTable.FindOrCreate: the database's unique lookup is modelled as a search of the name sequence. Races between concurrent `findOrCreate` calls are not modelled.
