/**
 * The resume endpoints of the API (backend/src/controllers/resumeController.js):
 * upload, update and soft delete of resumes, and the `isActive` filter every
 * read applies.  The backend's state is the object storage bucket, the
 * Resume table, the two join tables and the Company and Keyword tables.
 *
 * Each write runs in a transaction that covers the Resume row and its join
 * rows.  The object storage and the tag tables are outside it: an object
 * stored or a tag created before a failure stays.  An operation that throws
 * is chosen by a `Fault` parameter; the clock (`Date.now()`) and the outcome
 * of the storage delete call, whose errors the source swallows, are
 * parameters as well.
 */
module ResumeController {
  import opened Wrappers
  import opened Text
  import Utils
  import Tags
  import Auth

  newtype byte = x: int | 0 <= x < 256

  /** A row of the Resume table. */
  datatype ResumeRow = ResumeRow(
    name: string,
    major: string,
    graduationYear: string,
    pdfUrl: string,
    s3Key: string,
    uploadedBy: string,
    isActive: bool)

  /** The text fields of a request body; an absent field is "". */
  datatype Body = Body(
    name: string,
    major: string,
    graduationYear: string,
    companies: string,
    keywords: string)

  /** The step of a request that throws, if any. */
  datatype Fault =
    | NoFault
    | Put                   // uploadFile
    | Create                // Resume.create
    | FindResume            // Resume.findOne in an update or a delete
    | FindCompany(k: nat)   // the k-th Company.findOrCreate
    | SetCompanies          // resume.setCompanies
    | FindKeyword(k: nat)   // the k-th Keyword.findOrCreate
    | SetKeywords           // resume.setKeywords
    | Save                  // resume.save
    | Reload                // resume.reload
    | Commit                // transaction.commit

  /** Where the request's transaction ended. */
  datatype Tx = TxOpen | TxCommitted | TxRolledBack

  /** A resume as the responses show it. */
  datatype ResumeView = ResumeView(
    id: nat,
    name: string,
    major: string,
    graduationYear: string,
    pdfUrl: string,
    companies: set<string>,
    keywords: set<string>)

  /** The `data` of `getFilters`. */
  datatype FilterLists = FilterLists(majors: set<string>, graduationYears: set<string>, companies: set<string>)

  /** The response a request gets. */
  datatype Reply =
    | Uploaded(id: nat, row: ResumeRow, companies: seq<string>, keywords: seq<string>)
    | Updated(view: ResumeView)
    | Deleted
    | Error(status: nat, message: string)

  const NoFileMessage: string := "No PDF file uploaded."
  const MissingFieldsMessage: string := "Missing required fields."
  const UploadErrorMessage: string := "Error uploading resume."
  const NotFoundMessage: string := "Resume not found."
  const PermissionDeniedMessage: string := "Permission denied."
  const UpdateErrorMessage: string := "Error updating resume."
  const DeleteErrorMessage: string := "Error deleting resume."

  /** `!name || !major || !graduationYear` fails. */
  predicate HasRequiredFields(body: Body) {
    body.name != "" && body.major != "" && body.graduationYear != ""
  }

  /** `s ? s.split(',').map(c => c.trim()).filter(Boolean) : []`. */
  function ParseList(s: string): seq<string> {
    if s != "" then SplitTrimmed(s) else []
  }

  /** The storage key `resumes/${sanitizedName}_${timestamp}.pdf`. */
  function S3Key(name: string, timestamp: nat): string {
    "resumes/" + Sanitize(name) + "_" + NatToString(timestamp) + ".pdf"
  }

  /** The URL `uploadFile` returns for a stored object. */
  function ObjectUrl(bucket: string, region: string, key: string): string {
    "https://" + bucket + ".s3." + region + ".amazonaws.com/" + key
  }

  /** The key is the front end's generated file name under "resumes/": the
      sanitised name, which has the length of the name and only `[a-z0-9_]`,
      then `_`, the timestamp and ".pdf". */
  lemma S3KeyShape(name: string, timestamp: nat)
    ensures var key := S3Key(name, timestamp);
      && key == "resumes/" + Utils.GenerateUniqueFilename(name, timestamp)
      && Utils.ParseFilename(key[8..]) == Some((Sanitize(name), timestamp))
      && |Sanitize(name)| == |name|
      && (forall i :: 8 <= i < 8 + |name| ==> IsLowerAlnum(key[i]) || key[i] == '_')
      && key[|key| - 4..] == ".pdf"
  {
    var key := S3Key(name, timestamp);
    var f := Utils.GenerateUniqueFilename(name, timestamp);
    assert key == "resumes/" + f;
    assert key[8..] == f;
    Utils.FilenameRoundTrip(name, timestamp);
    forall i | 8 <= i < 8 + |name|
      ensures IsLowerAlnum(key[i]) || key[i] == '_'
    {
      assert key[i] == f[i - 8];
    }
    assert key[|key| - 4..] == f[|f| - 4..];
  }

  /** Two uploads at different times never share a key, whatever the names. */
  lemma S3KeysDiffer(name1: string, t1: nat, name2: string, t2: nat)
    requires S3Key(name1, t1) == S3Key(name2, t2)
    ensures t1 == t2 && Sanitize(name1) == Sanitize(name2)
  {
    S3KeyShape(name1, t1);
    S3KeyShape(name2, t2);
  }

  // ---------------------------------------------------------------------
  // The read paths: every query filters on `isActive = true`.

  /** `Resume.findOne({ where: { id, isActive: true } })`. */
  function FindActive(resumes: map<nat, ResumeRow>, id: nat): Option<ResumeRow> {
    if id in resumes && resumes[id].isActive then Some(resumes[id]) else None
  }

  /** The ids `searchResumes` lists for the `major` and `graduationYear`
      query parameters ("" when absent). */
  function SearchIds(resumes: map<nat, ResumeRow>, major: string, graduationYear: string): set<nat> {
    set id | id in resumes && resumes[id].isActive
      && (major == "" || resumes[id].major == major)
      && (graduationYear == "" || resumes[id].graduationYear == graduationYear)
  }

  /** The distinct majors of active resumes. */
  function ActiveMajors(resumes: map<nat, ResumeRow>): set<string> {
    set id | id in resumes && resumes[id].isActive :: resumes[id].major
  }

  /** The distinct graduation years of active resumes. */
  function ActiveYears(resumes: map<nat, ResumeRow>): set<string> {
    set id | id in resumes && resumes[id].isActive :: resumes[id].graduationYear
  }

  /** The tags joined to some active resume. */
  function ActiveTagIds(resumes: map<nat, ResumeRow>, joins: map<nat, set<nat>>): set<nat> {
    set id, c | id in resumes && resumes[id].isActive && id in joins && c in joins[id] :: c
  }

  /** The names of the rows `ids` of a tag table. */
  function NamesOf(ids: set<nat>, names: seq<string>): set<string> {
    set c | c in ids && c < |names| :: names[c]
  }

  /** `resume.isActive = false`. */
  function SoftDelete(resumes: map<nat, ResumeRow>, id: nat): map<nat, ResumeRow>
    requires id in resumes
  {
    resumes[id := resumes[id].(isActive := false)]
  }

  /** Soft deletion keeps the row but every read path then sees the table as
      if the row were gone: `getResumeById`, `updateResume` and
      `deleteResume` no longer find it, and search and the filter lists
      leave it out. */
  lemma SoftDeleteHides(resumes: map<nat, ResumeRow>, joins: map<nat, set<nat>>, id: nat)
    requires id in resumes
    ensures var after := SoftDelete(resumes, id);
      && after.Keys == resumes.Keys
      && after[id] == resumes[id].(isActive := false)
      && FindActive(after, id) == None
      && (forall j :: FindActive(after, j) == FindActive(resumes - {id}, j))
      && (forall major, year :: SearchIds(after, major, year) == SearchIds(resumes - {id}, major, year))
      && ActiveMajors(after) == ActiveMajors(resumes - {id})
      && ActiveYears(after) == ActiveYears(resumes - {id})
      && ActiveTagIds(after, joins) == ActiveTagIds(resumes - {id}, joins)
  {
    var after := SoftDelete(resumes, id);
    var rest := resumes - {id};
    assert forall j :: j in after && after[j].isActive <==> j in rest && rest[j].isActive;
    assert forall j :: j in rest ==> after[j] == rest[j];
  }

  /** A deleted resume is not found and not listed. */
  lemma DeletedIsNotFound(resumes: map<nat, ResumeRow>, id: nat, major: string, year: string)
    requires id in resumes
    ensures FindActive(SoftDelete(resumes, id), id) == None
    ensures id !in SearchIds(SoftDelete(resumes, id), major, year)
  {
  }

  /** The fields `updateResume` writes: each truthy field of the body
      replaces the stored one. */
  function Revise(row: ResumeRow, body: Body): ResumeRow {
    row.(
      name := if body.name != "" then body.name else row.name,
      major := if body.major != "" then body.major else row.major,
      graduationYear := if body.graduationYear != "" then body.graduationYear else row.graduationYear)
  }

  /** A revision changes only the fields the body supplies, and never the
      file, the owner or the active flag. */
  lemma ReviseChangesOnlySupplied(row: ResumeRow, body: Body)
    ensures var r := Revise(row, body);
      && (r.name == row.name || r.name == body.name)
      && (r.name != row.name ==> body.name != "")
      && (body.name != "" ==> r.name == body.name)
      && (r.major != row.major ==> body.major != "")
      && (body.major != "" ==> r.major == body.major)
      && (r.graduationYear != row.graduationYear ==> body.graduationYear != "")
      && (body.graduationYear != "" ==> r.graduationYear == body.graduationYear)
      && r.pdfUrl == row.pdfUrl && r.s3Key == row.s3Key
      && r.uploadedBy == row.uploadedBy && r.isActive == row.isActive
  {
  }

  /** An empty body changes nothing. */
  lemma ReviseEmptyBody(row: ResumeRow)
    ensures Revise(row, Body("", "", "", "", "")) == row
  {
  }

  /** `req.user.role !== 'admin' && resume.uploadedBy !== req.user.id` fails. */
  predicate MayChange(user: Auth.User, row: ResumeRow) {
    user.role == "admin" || row.uploadedBy == user.id
  }

  /** Whether the fault hits one of the `findOrCreate` or `set...` calls made
      for the lists given (`None`: that association is not touched). */
  predicate TagFails(fault: Fault, companyList: Option<seq<string>>, keywordList: Option<seq<string>>) {
    match fault
    case FindCompany(k) => companyList.Some? && k < |companyList.value|
    case SetCompanies => companyList.Some?
    case FindKeyword(k) => keywordList.Some? && k < |keywordList.value|
    case SetKeywords => keywordList.Some?
    case _ => false
  }

  /** Whether the fault hits a step an upload runs, for the lists it parsed. */
  predicate UploadFails(fault: Fault, companyList: seq<string>, keywordList: seq<string>) {
    || fault == Put || fault == Create || fault == Commit
    || TagFails(fault, Some(companyList), Some(keywordList))
  }

  /** The list an update replaces the associations with: `None` when the
      body has no such string. */
  function Listed(s: string): Option<seq<string>> {
    if s != "" then Some(ParseList(s)) else None
  }

  /** Whether the fault hits a step an update runs after `resume.save`, for
      the lists it replaces. */
  predicate RevisionFails(fault: Fault, companyList: Option<seq<string>>, keywordList: Option<seq<string>>) {
    fault == Reload || fault == Commit || TagFails(fault, companyList, keywordList)
  }

  /** Whether the fault hits a step an update with this body runs. */
  predicate UpdateFails(fault: Fault, body: Body) {
    fault == Save || RevisionFails(fault, Listed(body.companies), Listed(body.keywords))
  }

  /** The storage after `deleteFile(key)`, which logs a failed delete and
      carries on. */
  function AfterDelete(objects: map<string, seq<byte>>, key: string, deleted: bool): map<string, seq<byte>> {
    if deleted then objects - {key} else objects
  }

  /** The `failAt` of the k-th `findOrCreate` call of a helper. */
  function CompanyFault(fault: Fault): Option<nat> {
    if fault.FindCompany? then Some(fault.k) else None
  }

  function KeywordFault(fault: Fault): Option<nat> {
    if fault.FindKeyword? then Some(fault.k) else None
  }

  /** Every entry of the list is trimmed, as the parsed lists are. */
  predicate EntriesTrimmed(list: seq<string>) {
    forall i :: 0 <= i < |list| ==> IsTrimmed(list[i])
  }

  /** The parsed lists have trimmed entries. */
  lemma ParseListEntriesTrimmed(s: string)
    ensures EntriesTrimmed(ParseList(s))
  {
    if s != "" {
      SplitTrimmedEntries(s);
    }
  }

  /** `findOrCreateCompanies(list)` (or `findOrCreateKeywords`) for a parsed
      list, followed by the ids `setCompanies` stores. */
  method FindOrCreateList(table: Tags.TagTable, list: seq<string>, failAt: Option<nat>)
    returns (ok: bool, ids: set<nat>, names: seq<string>)
    requires table.Valid() && EntriesTrimmed(list)
    modifies table
    ensures table.Valid()
    ensures ok <==> failAt.None? || failAt.value >= |list|
    ensures old(table.names) <= table.names
    ensures ok ==> names == list
    ensures ok ==> Tags.JoinFor(ids, table.names, list)
    ensures ok ==> table.names == Tags.InternAll(old(table.names), list)
  {
    var tags;
    ok, tags := table.FindOrCreateAll(list, failAt);
    Tags.InternAllExtends(old(table.names), Tags.TagNames(tags));
    if ok {
      forall i | 0 <= i < |list|
        ensures Trim(list[i]) == list[i]
      {
        TrimOfTrimmed(list[i]);
      }
      Tags.TagIdsJoin(tags, table.names, list);
    }
    ids := Tags.TagIds(tags);
    names := Tags.TagNames(tags);
  }

  /** `joins` is `before` with the entry of `id` replaced by the rows of the
      table named in `list`. */
  ghost predicate Linked(joins: map<nat, set<nat>>, before: map<nat, set<nat>>, id: nat,
                         names: seq<string>, list: seq<string>) {
    && id in joins
    && joins == before[id := joins[id]]
    && Tags.JoinFor(joins[id], names, list)
  }

  /** `findOrCreateCompanies(list)` followed by `resume.setCompanies(...)`
      (or the keyword pair): the join rows of resume `id` become the rows of
      `table` named in `list`.  `failAt` is the `findOrCreate` call that
      throws and `setFails` whether the `set...` call throws; the rows
      created before a failure stay. */
  method LinkTags(table: Tags.TagTable, joins: map<nat, set<nat>>, id: nat, list: seq<string>,
                  failAt: Option<nat>, setFails: bool)
    returns (ok: bool, linked: map<nat, set<nat>>)
    requires table.Valid() && EntriesTrimmed(list)
    modifies table
    ensures table.Valid()
    ensures ok <==> (failAt.None? || failAt.value >= |list|) && !setFails
    ensures old(table.names) <= table.names
    ensures ok ==> Linked(linked, joins, id, table.names, list)
    ensures ok ==> table.names == Tags.InternAll(old(table.names), list)
  {
    var found, ids, _ := FindOrCreateList(table, list, failAt);
    ok := found && !setFails;
    linked := joins[id := ids];
  }

  /** The join rows and the table after the `findOrCreate` and `set...`
      calls for `list`: `None` leaves both as they were. */
  ghost predicate Replaced(joins: map<nat, set<nat>>, before: map<nat, set<nat>>, id: nat,
                           names: seq<string>, oldNames: seq<string>, list: Option<seq<string>>) {
    match list
    case None => joins == before && names == oldNames
    case Some(l) => Linked(joins, before, id, names, l) && names == Tags.InternAll(oldNames, l)
  }

  /** The company step and then the keyword step of an upload or an update,
      each run only when its list is given. */
  method LinkAll(companies: Tags.TagTable, keywords: Tags.TagTable,
                 companyJoins: map<nat, set<nat>>, keywordJoins: map<nat, set<nat>>, id: nat,
                 companyList: Option<seq<string>>, keywordList: Option<seq<string>>, fault: Fault)
    returns (ok: bool, newCompanyJoins: map<nat, set<nat>>, newKeywordJoins: map<nat, set<nat>>)
    requires companies != keywords && companies.Valid() && keywords.Valid()
    requires companyList.Some? ==> EntriesTrimmed(companyList.value)
    requires keywordList.Some? ==> EntriesTrimmed(keywordList.value)
    modifies companies, keywords
    ensures companies.Valid() && keywords.Valid()
    ensures ok <==> !TagFails(fault, companyList, keywordList)
    ensures old(companies.names) <= companies.names && old(keywords.names) <= keywords.names
    ensures ok ==> Replaced(newCompanyJoins, companyJoins, id, companies.names, old(companies.names), companyList)
    ensures ok ==> Replaced(newKeywordJoins, keywordJoins, id, keywords.names, old(keywords.names), keywordList)
  {
    newCompanyJoins, newKeywordJoins := companyJoins, keywordJoins;
    if companyList.Some? {
      ok, newCompanyJoins := LinkTags(companies, companyJoins, id, companyList.value,
        CompanyFault(fault), fault == SetCompanies);
      if !ok {
        return;
      }
    }
    if keywordList.Some? {
      ok, newKeywordJoins := LinkTags(keywords, keywordJoins, id, keywordList.value,
        KeywordFault(fault), fault == SetKeywords);
      if !ok {
        return;
      }
    }
    ok := true;
  }

  class Backend {
    var objects: map<string, seq<byte>>
    var resumes: map<nat, ResumeRow>
    var resumeCompanies: map<nat, set<nat>>
    var resumeKeywords: map<nat, set<nat>>
    /** The next value of the Resume id sequence. */
    var nextId: nat
    const companies: Tags.TagTable
    const keywords: Tags.TagTable
    const bucket: string
    const region: string

    ghost predicate Valid()
      reads this, companies, keywords
    {
      && companies != keywords
      && companies.Valid() && keywords.Valid()
      && (forall id :: id in resumes ==> id < nextId)
    }

    constructor (bucket: string, region: string)
      ensures Valid()
      ensures this.bucket == bucket && this.region == region
      ensures objects == map[] && resumes == map[] && nextId == 0
      ensures resumeCompanies == map[] && resumeKeywords == map[]
      ensures companies.names == [] && keywords.names == []
    {
      this.bucket := bucket;
      this.region := region;
      objects := map[];
      resumes := map[];
      resumeCompanies := map[];
      resumeKeywords := map[];
      nextId := 0;
      companies := new Tags.TagTable();
      keywords := new Tags.TagTable();
    }

    /** The response fields of a stored resume. */
    function ViewOf(id: nat, row: ResumeRow): ResumeView
      reads this, companies, keywords
    {
      ResumeView(id, row.name, row.major, row.graduationYear, row.pdfUrl,
        NamesOf(if id in resumeCompanies then resumeCompanies[id] else {}, companies.names),
        NamesOf(if id in resumeKeywords then resumeKeywords[id] else {}, keywords.names))
    }

    /** `getResumeById`. */
    function GetResumeById(id: nat): Option<ResumeView>
      reads this, companies, keywords
    {
      match FindActive(resumes, id)
      case None => None
      case Some(row) => Some(ViewOf(id, row))
    }

    /** `searchResumes` with the `major` and `graduationYear` parameters. */
    function SearchResumes(major: string, graduationYear: string): set<nat>
      reads this
    {
      SearchIds(resumes, major, graduationYear)
    }

    /** `getFilters`. */
    function GetFilters(): FilterLists
      reads this, companies
    {
      FilterLists(ActiveMajors(resumes), ActiveYears(resumes),
        NamesOf(ActiveTagIds(resumes, resumeCompanies), companies.names))
    }

    /** `uploadResume`. */
    method UploadResume(file: Option<seq<byte>>, body: Body, user: Auth.User, timestamp: nat, fault: Fault)
      returns (reply: Reply, tx: Tx)
      requires Valid()
      modifies this, companies, keywords
      ensures Valid()
      ensures file.None? ==> reply == Error(400, NoFileMessage) && tx == TxOpen
      ensures file.Some? && !HasRequiredFields(body) ==> reply == Error(400, MissingFieldsMessage) && tx == TxOpen
      ensures tx == TxOpen ==> unchanged(this) && unchanged(companies) && unchanged(keywords)
      ensures reply.Uploaded? <==>
        (file.Some? && HasRequiredFields(body) &&
         !UploadFails(fault, ParseList(body.companies), ParseList(body.keywords)))
      ensures reply.Uploaded? ==>
        var key := S3Key(body.name, timestamp);
        var row := ResumeRow(body.name, body.major, body.graduationYear,
          ObjectUrl(bucket, region, key), key, user.id, true);
        var id := old(nextId);
        && tx == TxCommitted
        && reply == Uploaded(id, row, ParseList(body.companies), ParseList(body.keywords))
        && id !in old(resumes) && nextId == id + 1
        && resumes == old(resumes)[id := row]
        && objects == old(objects)[key := file.value]
        && Replaced(resumeCompanies, old(resumeCompanies), id, companies.names, old(companies.names),
             Some(ParseList(body.companies)))
        && Replaced(resumeKeywords, old(resumeKeywords), id, keywords.names, old(keywords.names),
             Some(ParseList(body.keywords)))
      ensures (file.Some? && HasRequiredFields(body) &&
               UploadFails(fault, ParseList(body.companies), ParseList(body.keywords))) ==>
        && reply == Error(500, UploadErrorMessage) && tx == TxRolledBack
        && resumes == old(resumes)
        && resumeCompanies == old(resumeCompanies) && resumeKeywords == old(resumeKeywords)
        && objects == (if fault == Put then old(objects)
                       else old(objects)[S3Key(body.name, timestamp) := file.value])
        && old(companies.names) <= companies.names && old(keywords.names) <= keywords.names
    {
      if file.None? {
        return Error(400, NoFileMessage), TxOpen;
      }
      if !HasRequiredFields(body) {
        return Error(400, MissingFieldsMessage), TxOpen;
      }
      var key := S3Key(body.name, timestamp);
      if fault == Put {
        return Error(500, UploadErrorMessage), TxRolledBack;
      }
      objects := objects[key := file.value];
      var pdfUrl := ObjectUrl(bucket, region, key);
      var row := ResumeRow(body.name, body.major, body.graduationYear, pdfUrl, key, user.id, true);
      var companyList, keywordList := ParseList(body.companies), ParseList(body.keywords);
      ParseListEntriesTrimmed(body.companies);
      ParseListEntriesTrimmed(body.keywords);
      var ok, id, companyNames, keywordNames := RecordUpload(row, companyList, keywordList, fault);
      if ok {
        reply, tx := Uploaded(id, row, companyNames, keywordNames), TxCommitted;
      } else {
        reply, tx := Error(500, UploadErrorMessage), TxRolledBack;
      }
    }

    /** The transactional part of `uploadResume`: `Resume.create`, the tags
        and their join rows, and the commit; the row and the join rows are
        rolled back when a step throws. */
    method RecordUpload(row: ResumeRow, companyList: seq<string>, keywordList: seq<string>, fault: Fault)
      returns (ok: bool, id: nat, companyNames: seq<string>, keywordNames: seq<string>)
      requires Valid()
      requires EntriesTrimmed(companyList) && EntriesTrimmed(keywordList)
      requires fault != Put
      modifies this, companies, keywords
      ensures Valid()
      ensures ok <==> !UploadFails(fault, companyList, keywordList)
      ensures objects == old(objects)
      ensures ok ==>
        && id == old(nextId) && id !in old(resumes) && nextId == id + 1
        && companyNames == companyList && keywordNames == keywordList
        && resumes == old(resumes)[id := row]
        && Replaced(resumeCompanies, old(resumeCompanies), id, companies.names, old(companies.names), Some(companyList))
        && Replaced(resumeKeywords, old(resumeKeywords), id, keywords.names, old(keywords.names), Some(keywordList))
      ensures !ok ==>
        && resumes == old(resumes)
        && resumeCompanies == old(resumeCompanies) && resumeKeywords == old(resumeKeywords)
        && old(companies.names) <= companies.names && old(keywords.names) <= keywords.names
    {
      id := nextId;
      if fault == Create {
        return false, id, [], [];
      }
      nextId := nextId + 1;
      var linked, companyJoins, keywordJoins := LinkAll(companies, keywords, resumeCompanies, resumeKeywords, id,
        Some(companyList), Some(keywordList), fault);
      assert UploadFails(fault, companyList, keywordList) <==>
        fault == Commit || TagFails(fault, Some(companyList), Some(keywordList));
      if !linked || fault == Commit {
        return false, id, [], [];
      }
      resumes, resumeCompanies, resumeKeywords := resumes[id := row], companyJoins, keywordJoins;
      ok, companyNames, keywordNames := true, companyList, keywordList;
    }

    /** `updateResume`. */
    method UpdateResume(id: nat, body: Body, user: Auth.User, fault: Fault) returns (reply: Reply, tx: Tx)
      requires Valid()
      modifies this, companies, keywords
      ensures Valid()
      ensures objects == old(objects) && nextId == old(nextId)
      ensures fault == FindResume ==>
        reply == Error(500, UpdateErrorMessage) && tx == TxRolledBack &&
        unchanged(this) && unchanged(companies) && unchanged(keywords)
      ensures fault != FindResume && FindActive(old(resumes), id).None? ==>
        reply == Error(404, NotFoundMessage) && tx == TxOpen
      ensures (fault != FindResume && FindActive(old(resumes), id).Some? && !MayChange(user, old(resumes)[id])) ==>
        reply == Error(403, PermissionDeniedMessage) && tx == TxOpen
      ensures tx == TxOpen ==> unchanged(this) && unchanged(companies) && unchanged(keywords)
      ensures reply.Updated? <==>
        (fault != FindResume && FindActive(old(resumes), id).Some? && MayChange(user, old(resumes)[id]) &&
         !UpdateFails(fault, body))
      ensures reply.Updated? ==>
        && tx == TxCommitted
        && resumes == old(resumes)[id := Revise(old(resumes)[id], body)]
        && reply.view == ViewOf(id, resumes[id])
        && Replaced(resumeCompanies, old(resumeCompanies), id, companies.names, old(companies.names),
             Listed(body.companies))
        && Replaced(resumeKeywords, old(resumeKeywords), id, keywords.names, old(keywords.names),
             Listed(body.keywords))
      ensures (fault != FindResume && FindActive(old(resumes), id).Some? && MayChange(user, old(resumes)[id]) &&
               UpdateFails(fault, body)) ==>
        && reply == Error(500, UpdateErrorMessage) && tx == TxRolledBack
        && resumes == old(resumes)
        && resumeCompanies == old(resumeCompanies) && resumeKeywords == old(resumeKeywords)
        && old(companies.names) <= companies.names && old(keywords.names) <= keywords.names
    {
      if fault == FindResume {
        return Error(500, UpdateErrorMessage), TxRolledBack;
      }
      var found := FindActive(resumes, id);
      if found.None? {
        return Error(404, NotFoundMessage), TxOpen;
      }
      if !MayChange(user, found.value) {
        return Error(403, PermissionDeniedMessage), TxOpen;
      }
      if fault == Save {
        return Error(500, UpdateErrorMessage), TxRolledBack;
      }
      var companyList, keywordList := Listed(body.companies), Listed(body.keywords);
      ParseListEntriesTrimmed(body.companies);
      ParseListEntriesTrimmed(body.keywords);
      var ok := RecordUpdate(id, Revise(found.value, body), companyList, keywordList, fault);
      if ok {
        reply, tx := Updated(ViewOf(id, resumes[id])), TxCommitted;
      } else {
        reply, tx := Error(500, UpdateErrorMessage), TxRolledBack;
      }
    }

    /** The part of `updateResume` after `resume.save`: the revised row, the
        replaced associations, the reload and the commit; the row and the
        join rows are rolled back when a step throws. */
    method RecordUpdate(id: nat, revised: ResumeRow,
                        companyList: Option<seq<string>>, keywordList: Option<seq<string>>, fault: Fault)
      returns (ok: bool)
      requires Valid() && id in resumes
      requires companyList.Some? ==> EntriesTrimmed(companyList.value)
      requires keywordList.Some? ==> EntriesTrimmed(keywordList.value)
      modifies this, companies, keywords
      ensures Valid()
      ensures objects == old(objects) && nextId == old(nextId)
      ensures ok <==> !RevisionFails(fault, companyList, keywordList)
      ensures ok ==>
        && resumes == old(resumes)[id := revised]
        && Replaced(resumeCompanies, old(resumeCompanies), id, companies.names, old(companies.names), companyList)
        && Replaced(resumeKeywords, old(resumeKeywords), id, keywords.names, old(keywords.names), keywordList)
      ensures !ok ==>
        && resumes == old(resumes)
        && resumeCompanies == old(resumeCompanies) && resumeKeywords == old(resumeKeywords)
        && old(companies.names) <= companies.names && old(keywords.names) <= keywords.names
    {
      var linked, companyJoins, keywordJoins := LinkAll(companies, keywords, resumeCompanies, resumeKeywords, id,
        companyList, keywordList, fault);
      assert RevisionFails(fault, companyList, keywordList) <==>
        fault == Reload || fault == Commit || TagFails(fault, companyList, keywordList);
      if !linked || fault == Reload || fault == Commit {
        return false;
      }
      resumes, resumeCompanies, resumeKeywords := resumes[id := revised], companyJoins, keywordJoins;
      ok := true;
    }

    /** `deleteResume`.  `deleted` is whether the storage delete succeeded;
        a failed one is only logged. */
    method DeleteResume(id: nat, user: Auth.User, deleted: bool, fault: Fault) returns (reply: Reply, tx: Tx)
      requires Valid()
      modifies this
      ensures Valid()
      ensures resumeCompanies == old(resumeCompanies) && resumeKeywords == old(resumeKeywords)
      ensures nextId == old(nextId)
      ensures fault == FindResume ==>
        reply == Error(500, DeleteErrorMessage) && tx == TxRolledBack && unchanged(this)
      ensures fault != FindResume && FindActive(old(resumes), id).None? ==>
        reply == Error(404, NotFoundMessage) && tx == TxOpen
      ensures (fault != FindResume && FindActive(old(resumes), id).Some? && !MayChange(user, old(resumes)[id])) ==>
        reply == Error(403, PermissionDeniedMessage) && tx == TxOpen
      ensures tx == TxOpen ==> unchanged(this)
      ensures reply == Deleted <==>
        (fault != FindResume && FindActive(old(resumes), id).Some? && MayChange(user, old(resumes)[id]) &&
         fault != Save && fault != Commit)
      ensures reply == Deleted ==>
        && tx == TxCommitted
        && resumes == SoftDelete(old(resumes), id)
        && objects == AfterDelete(old(objects), old(resumes)[id].s3Key, deleted)
      ensures (fault != FindResume && FindActive(old(resumes), id).Some? && MayChange(user, old(resumes)[id]) &&
               (fault == Save || fault == Commit)) ==>
        && reply == Error(500, DeleteErrorMessage) && tx == TxRolledBack
        && resumes == old(resumes)
        && objects == (if fault == Commit then AfterDelete(old(objects), old(resumes)[id].s3Key, deleted)
                       else old(objects))
    {
      if fault == FindResume {
        return Error(500, DeleteErrorMessage), TxRolledBack;
      }
      var found := FindActive(resumes, id);
      if found.None? {
        return Error(404, NotFoundMessage), TxOpen;
      }
      var row := found.value;
      if !MayChange(user, row) {
        return Error(403, PermissionDeniedMessage), TxOpen;
      }
      if fault == Save {
        return Error(500, DeleteErrorMessage), TxRolledBack;
      }
      var saved := resumes;
      resumes := SoftDelete(resumes, id);
      objects := AfterDelete(objects, row.s3Key, deleted);
      if fault == Commit {
        resumes := saved;
        return Error(500, DeleteErrorMessage), TxRolledBack;
      }
      reply, tx := Deleted, TxCommitted;
    }
  }
}
