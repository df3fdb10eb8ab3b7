/** The faculty directory screen: the list with its department, status and
    search filters, and the "Add Faculty" form with its region, province
    and city cascade and its submit validation. The server's answers are
    inputs. */
module FacultyPage {
  import opened Values
  import opened Text
  import opened Seqs
  import FacultyController

  /** A faculty record as the server sends it: field names to values. */
  type FacultyRow = map<string, Val>

  /** The list filters; `All` means "no filter". */
  datatype Filters = Filters(department: string, status: string)

  const NoFilters: Filters := Filters("All", "All")

  /** The name shown and searched: `name`, or else the first and last name
      joined by a space, a missing part read as `''`. */
  function DisplayName(f: FacultyRow): (n: string)
    ensures JsTruthy(Get(f, "name")) ==> n == Get(f, "name").s
    ensures !JsTruthy(Get(f, "name")) ==> n == OrEmpty(Get(f, "first_name")) + " " + OrEmpty(Get(f, "last_name"))
  {
    JsOr(Get(f, "name"), Str(OrEmpty(Get(f, "first_name")) + " " + OrEmpty(Get(f, "last_name")))).s
  }

  /** The test `filteredFaculty` applies to one record, given the trimmed,
      lower-cased search term. */
  predicate FacultyMatches(f: FacultyRow, filters: Filters, lowerSearch: string) {
    (filters.department == "All" || Get(f, "department") == Str(filters.department)) &&
    (filters.status == "All" || Get(f, "status") == Str(filters.status)) &&
    (lowerSearch == "" || Contains(Lower(DisplayName(f)), lowerSearch) ||
     Contains(Lower(JsOr(Get(f, "faculty_id"), Str("")).s), lowerSearch))
  }

  function SearchKey(searchTerm: string): string {
    Lower(Trim(searchTerm, JsWhitespace))
  }

  /** `filteredFaculty`: the records passing every filter, in list order. */
  function FilteredFaculty(list: seq<FacultyRow>, filters: Filters, searchTerm: string): (r: seq<FacultyRow>)
    ensures IsSubsequence(r, list)
    ensures forall f :: f in r <==> f in list && FacultyMatches(f, filters, SearchKey(searchTerm))
  {
    var lowerSearch := SearchKey(searchTerm);
    Filter((f: FacultyRow) => FacultyMatches(f, filters, lowerSearch), list)
  }

  /** With both filters at `All` and a blank search, every record is shown. */
  lemma NoFilterShowsAll(list: seq<FacultyRow>, searchTerm: string)
    requires Trim(searchTerm, JsWhitespace) == ""
    ensures FilteredFaculty(list, NoFilters, searchTerm) == list
  {
    FilterAll((f: FacultyRow) => FacultyMatches(f, NoFilters, SearchKey(searchTerm)), list);
  }

  datatype Province = Province(name: string, cities: seq<string>)
  datatype Region = Region(name: string, provinces: seq<Province>)

  const Ncr: Region := Region("NCR", [
    Province("Metro Manila", ["Manila", "Quezon City", "Makati", "Pasig", "Taguig"])])
  const IlocosRegion: Region := Region("Region I (Ilocos Region)", [
    Province("Ilocos Norte", ["Laoag", "Batac"]),
    Province("Ilocos Sur", ["Vigan", "Candon"])])
  const Calabarzon: Region := Region("Region IV-A (CALABARZON)", [
    Province("Cavite", ["Imus", "Bacoor"]),
    Province("Laguna", ["Calamba", "San Pablo"]),
    Province("Batangas", ["Batangas City", "Lipa"])])
  const CentralVisayas: Region := Region("Region VII (Central Visayas)", [
    Province("Cebu", ["Cebu City", "Mandaue", "Lapu-Lapu"]),
    Province("Bohol", ["Tagbilaran"])])

  /** `PH_LOCATIONS`, its regions and provinces in declaration order. */
  const PhLocations: seq<Region> := [Ncr, IlocosRegion, Calabarzon, CentralVisayas]

  /** `PH_LOCATIONS[name]`. */
  function FindRegion(name: string): (r: Option<Region>)
    ensures r.Some? ==> r.value in PhLocations && r.value.name == name
    ensures r.None? ==> forall g :: g in PhLocations ==> g.name != name
  {
    if name == Ncr.name then Some(Ncr)
    else if name == IlocosRegion.name then Some(IlocosRegion)
    else if name == Calabarzon.name then Some(Calabarzon)
    else if name == CentralVisayas.name then Some(CentralVisayas)
    else None
  }

  /** `Object.keys(PH_LOCATIONS[region]?.provinces || {})`. */
  function ProvinceKeys(region: string): (keys: seq<string>)
    ensures FindRegion(region).None? ==> keys == []
    ensures FindRegion(region).Some? ==>
      var ps := FindRegion(region).value.provinces;
      |keys| == |ps| && forall i :: 0 <= i < |ps| ==> keys[i] == ps[i].name
  {
    match FindRegion(region)
    case None => []
    case Some(g) => seq(|g.provinces|, i requires 0 <= i < |g.provinces| => g.provinces[i].name)
  }

  /** The empty region, the form's initial one, offers no provinces. */
  lemma NoRegionNoProvinces()
    ensures ProvinceKeys("") == []
  {
  }

  /** The position of the named province within the region. */
  function FindProvince(g: Region, name: string): (r: Option<nat>)
    ensures r.Some? ==> r.value < |g.provinces| && g.provinces[r.value].name == name
    ensures r.None? ==> forall j :: 0 <= j < |g.provinces| ==> g.provinces[j].name != name
  {
    FirstWhere(g.provinces, (p: Province) => p.name == name)
  }

  /** `PH_LOCATIONS[region].provinces[province] || []`; `None` when the
      region is unknown, where the lookup throws a `TypeError`. */
  function CityOptions(region: string, province: string): (r: Option<seq<string>>)
    ensures r.None? <==> FindRegion(region).None?
    ensures r.Some? && r.value != [] ==>
      exists p :: p in FindRegion(region).value.provinces && p.name == province && p.cities == r.value
  {
    match FindRegion(region)
    case None => None
    case Some(g) =>
      match FindProvince(g, province)
      case None => Some([])
      case Some(i) =>
        assert g.provinces[i] in g.provinces;
        Some(g.provinces[i].cities)
  }

  predicate ProvincesHaveCities(g: Region) {
    forall j :: 0 <= j < |g.provinces| ==> g.provinces[j].cities != []
  }

  lemma LocationsHaveCities()
    ensures forall g :: g in PhLocations ==> ProvincesHaveCities(g)
  {
    assert ProvincesHaveCities(Ncr);
    assert ProvincesHaveCities(IlocosRegion);
    assert ProvincesHaveCities(Calabarzon);
    assert ProvincesHaveCities(CentralVisayas);
  }

  /** Every province offered for a region leads to a non-empty city list. */
  lemma OfferedProvincesHaveCities(region: string, province: string)
    requires province in ProvinceKeys(region)
    ensures CityOptions(region, province).Some? && CityOptions(region, province).value != []
  {
    var g := FindRegion(region).value;
    var k :| 0 <= k < |g.provinces| && ProvinceKeys(region)[k] == province;
    assert g.provinces[k].name == province;
    var i := FindProvince(g, province).value;
    LocationsHaveCities();
    assert ProvincesHaveCities(g);
  }

  /** The fields of the form, with their initial values. */
  const InitialForm: map<string, string> := map[
    "FacultyID" := "", "FirstName" := "", "LastName" := "", "Email" := "",
    "Department" := "Engineering", "Position" := "", "PhoneNumber" := "",
    "Status" := "Active", "Region" := "", "Province" := "", "City" := "",
    "ProfilePicture" := ""]

  const NamesRequired: string := "First and last name are required."
  const SaveFailed: string := "Failed to save faculty."

  predicate HasFields(form: map<string, string>) {
    "FacultyID" in form && "FirstName" in form && "LastName" in form && "Email" in form &&
    "Department" in form && "Position" in form && "PhoneNumber" in form && "Status" in form &&
    "Region" in form && "Province" in form && "City" in form && "ProfilePicture" in form
  }

  /** Setting a field keeps every field present. */
  lemma HasFieldsUpdate(form: map<string, string>, key: string, value: string)
    requires HasFields(form)
    ensures HasFields(form[key := value])
  {
  }

  /** The form fields the request body carries unchanged. */
  const CopiedFields: set<string> := {"FirstName", "LastName", "Email", "Department", "Position", "PhoneNumber",
                                      "Status", "Region", "Province", "City"}

  /** The request body `handleSubmit` sends. */
  function SubmitPayload(form: map<string, string>, avatarPreview: string): (p: FacultyController.Payload)
    requires HasFields(form)
    ensures "FacultyID" in p && "Name" in p && "ProfilePicture" in p
    ensures p["FacultyID"] == if form["FacultyID"] == "" then Null else Str(form["FacultyID"])
    ensures p["Name"] == Str(form["FirstName"] + " " + form["LastName"])
    ensures p["ProfilePicture"] == Str(if form["ProfilePicture"] != "" then form["ProfilePicture"] else avatarPreview)
    ensures forall k :: k in CopiedFields ==> k in p && p[k] == Str(form[k])
  {
    map[
      "FacultyID" := JsOr(Str(form["FacultyID"]), Null),
      "FirstName" := Str(form["FirstName"]), "LastName" := Str(form["LastName"]),
      "Name" := Str(form["FirstName"] + " " + form["LastName"]),
      "Email" := Str(form["Email"]), "Department" := Str(form["Department"]),
      "Position" := Str(form["Position"]), "PhoneNumber" := Str(form["PhoneNumber"]),
      "Status" := Str(form["Status"]), "Region" := Str(form["Region"]),
      "Province" := Str(form["Province"]), "City" := Str(form["City"]),
      "ProfilePicture" := JsOr(Str(form["ProfilePicture"]), Str(avatarPreview))]
  }

  /** The back end stores the names the form sends as they are: the first and
      last name, and `name` as the form joined them. */
  lemma SubmittedNamesStored(form: map<string, string>, avatarPreview: string)
    requires HasFields(form)
    ensures var p := SubmitPayload(form, avatarPreview);
      FacultyController.FirstNameOf(p) == Str(form["FirstName"]) &&
      FacultyController.LastNameOf(p) == Str(form["LastName"]) &&
      FacultyController.FullNameOf(p) == Str(form["FirstName"] + " " + form["LastName"])
  {
  }

  /** What a submit did: refused by validation, or sent and then either
      closed or kept open with an error. */
  datatype SubmitOutcome = Refused | Sent(payload: FacultyController.Payload, closed: bool)

  /** The state of the "Add Faculty" form. */
  class AddFacultyModal {
    var formData: map<string, string>
    var provinceOptions: seq<string>
    var cityOptions: seq<string>
    var avatarPreview: string
    var formError: string

    predicate Valid()
      reads this
    {
      HasFields(formData)
    }

    constructor ()
      ensures Valid()
      ensures formData == InitialForm && provinceOptions == [] && cityOptions == []
      ensures avatarPreview == "" && formError == ""
    {
      formData := InitialForm;
      provinceOptions := [];
      cityOptions := [];
      avatarPreview := "";
      formError := "";
    }

    /** `handleChange`: only the named field changes. */
    method HandleChange(name: string, value: string)
      requires Valid()
      modifies this
      ensures Valid()
      ensures formData == old(formData)[name := value]
      ensures provinceOptions == old(provinceOptions) && cityOptions == old(cityOptions)
      ensures avatarPreview == old(avatarPreview) && formError == old(formError)
    {
      formData := formData[name := value];
    }

    /** `handleRegionChange`: a new region clears province and city and
      offers that region's provinces and no cities. */
    method HandleRegionChange(region: string)
      requires Valid()
      modifies this
      ensures Valid()
      ensures formData == old(formData)["Region" := region]["Province" := ""]["City" := ""]
      ensures provinceOptions == ProvinceKeys(region) && cityOptions == []
      ensures avatarPreview == old(avatarPreview) && formError == old(formError)
    {
      HasFieldsUpdate(formData, "Region", region);
      HasFieldsUpdate(formData["Region" := region], "Province", "");
      HasFieldsUpdate(formData["Region" := region]["Province" := ""], "City", "");
      formData := formData["Region" := region]["Province" := ""]["City" := ""];
      if region == "" {
        NoRegionNoProvinces();
        provinceOptions, cityOptions := [], [];
        return;
      }
      provinceOptions, cityOptions := ProvinceKeys(region), [];
    }

    /** `handleProvinceChange`: a new province clears the city and offers
      its cities. With a region that is not in the table the lookup throws:
      the result is `true` and the city options stay as they were. */
    method HandleProvinceChange(province: string) returns (threw: bool)
      requires Valid()
      modifies this
      ensures Valid()
      ensures formData == old(formData)["Province" := province]["City" := ""]
      ensures var region := old(formData)["Region"];
        if region == "" || province == "" then !threw && cityOptions == []
        else match CityOptions(region, province)
          case None => threw && cityOptions == old(cityOptions)
          case Some(cities) => !threw && cityOptions == cities
      ensures provinceOptions == old(provinceOptions)
      ensures avatarPreview == old(avatarPreview) && formError == old(formError)
    {
      var region := formData["Region"];
      formData := formData["Province" := province]["City" := ""];
      if region == "" || province == "" {
        cityOptions := [];
        return false;
      }
      var cities := CityOptions(region, province);
      if cities.None? {
        return true;
      }
      cityOptions := cities.value;
      threw := false;
    }

    /** `handleAvatar`, with the file reader's data URL as input (`None`
      when no file was chosen). */
    method HandleAvatar(dataUrl: Option<string>)
      requires Valid()
      modifies this
      ensures Valid()
      ensures dataUrl.None? ==> formData == old(formData) && avatarPreview == old(avatarPreview)
      ensures dataUrl.Some? ==>
        avatarPreview == dataUrl.value && formData == old(formData)["ProfilePicture" := dataUrl.value]
      ensures provinceOptions == old(provinceOptions) && cityOptions == old(cityOptions)
      ensures formError == old(formError)
    {
      if dataUrl.Some? {
        avatarPreview := dataUrl.value;
        formData := formData["ProfilePicture" := dataUrl.value];
      }
    }

    /** `handleSubmit`. `saveError` is how the save ended: `None` when it
      succeeded, else the error's message. */
    method HandleSubmit(saveError: Option<string>) returns (o: SubmitOutcome)
      requires Valid()
      modifies this
      ensures Valid()
      ensures o.Refused? <==>
        Trim(old(formData)["FirstName"], JsWhitespace) == "" || Trim(old(formData)["LastName"], JsWhitespace) == ""
      ensures o.Refused? ==> formError == NamesRequired
      ensures o.Sent? ==> o.payload == SubmitPayload(old(formData), old(avatarPreview))
      ensures o.Sent? ==> (o.closed <==> saveError.None?)
      ensures o.Sent? ==>
        formError == (if saveError.None? then "" else if saveError.value != "" then saveError.value else SaveFailed)
      ensures formData == old(formData) && avatarPreview == old(avatarPreview)
      ensures provinceOptions == old(provinceOptions) && cityOptions == old(cityOptions)
    {
      if Trim(formData["FirstName"], JsWhitespace) == "" || Trim(formData["LastName"], JsWhitespace) == "" {
        formError := NamesRequired;
        return Refused;
      }
      formError := "";
      var payload := SubmitPayload(formData, avatarPreview);
      if saveError.Some? {
        formError := if saveError.value != "" then saveError.value else SaveFailed;
        return Sent(payload, false);
      }
      o := Sent(payload, true);
    }
  }

  /** The body of the answer to the create request: a JSON object (the
      record it stands for, its `message` or `''`, and its `JSON.stringify`
      text) or, when it is not JSON, the raw text. */
  datatype SaveBody = JsonBody(record: FacultyRow, message: string, json: string) | TextBody(text: string)

  /** How the create request ended: an answer with its status and whether
      that status is 2xx, or a thrown error (network, CSRF cookie) with its
      message. */
  datatype SaveAnswer = Answered(ok: bool, status: nat, body: SaveBody) | SaveThrew(message: string)

  /** What `handleSaveFaculty` settles with: the created record, or the
      message of the error it throws. */
  datatype SaveResult = CreatedRecord(record: FacultyRow) | SaveError(message: string)

  const UnexpectedAnswer: string := "Unexpected response from server while creating faculty."
  const CreateFallback: string := "Unable to create faculty."
  /** The message of the `ReferenceError` a call to an undeclared name throws. */
  const UndeclaredModalMessage: string := "setModalMessage is not defined"

  /** The message for an answer that is not 2xx: `Create failed: <status>`,
      then the detail (the object's `message`, else its JSON text, or the
      raw text) when there is one. */
  function CreateFailedMessage(status: nat, body: SaveBody): (m: string)
    ensures |m| >= 15 && m[..15] == "Create failed: "
    ensures var detail := if body.JsonBody? then (if body.message != "" then body.message else body.json) else body.text;
      (detail == "" ==> m == "Create failed: " + NatToString(status)) &&
      (detail != "" ==> m == "Create failed: " + NatToString(status) + " " + detail)
  {
    var detail := if body.JsonBody? then (if body.message != "" then body.message else body.json) else body.text;
    var head := "Create failed: " + NatToString(status);
    assert head[..15] == "Create failed: ";
    if detail != "" then
      assert (head + " " + detail)[..15] == head[..15];
      head + " " + detail
    else head
  }

  /** The save's result, from the `try` to the `catch` that rethrows with the
      error's message or the fallback: a 2xx answer with an object is the
      created record, every other answer an error with a non-empty message. */
  function SaveOutcome(a: SaveAnswer): (r: SaveResult)
    ensures r.CreatedRecord? <==> a.Answered? && a.ok && a.body.JsonBody?
    ensures r.CreatedRecord? ==> r.record == a.body.record
    ensures r.SaveError? ==> r.message != ""
    ensures a.Answered? && !a.ok ==> r == SaveError(CreateFailedMessage(a.status, a.body))
    ensures a.Answered? && a.ok && a.body.TextBody? ==> r == SaveError(UnexpectedAnswer)
    ensures a.SaveThrew? ==> r == SaveError(if a.message != "" then a.message else CreateFallback)
  {
    match a
    case SaveThrew(message) => SaveError(if message != "" then message else CreateFallback)
    case Answered(ok, status, body) =>
      if !ok then
        var m := CreateFailedMessage(status, body);
        assert m[..15] == "Create failed: ";
        SaveError(m)
      else if body.TextBody? then SaveError(UnexpectedAnswer)
      else CreatedRecord(body.record)
  }

  /** The directory's state: the loaded list, the search box, the filters
      and whether a save is in progress. */
  class FacultyDirectory {
    var facultyList: seq<FacultyRow>
    var searchTerm: string
    var filters: Filters
    var modalSaving: bool

    constructor (loaded: seq<FacultyRow>)
      ensures facultyList == loaded && searchTerm == "" && filters == NoFilters && !modalSaving
    {
      facultyList := loaded;
      searchTerm := "";
      filters := NoFilters;
      modalSaving := false;
    }

    function Shown(): seq<FacultyRow>
      reads this
    {
      FilteredFaculty(facultyList, filters, searchTerm)
    }

    /** `resetFilters`. */
    method ResetFilters()
      modifies this
      ensures filters == NoFilters
      ensures facultyList == old(facultyList) && searchTerm == old(searchTerm) && modalSaving == old(modalSaving)
    {
      filters := NoFilters;
    }

    method SetFilters(department: string, status: string)
      modifies this
      ensures filters == Filters(department, status)
      ensures facultyList == old(facultyList) && searchTerm == old(searchTerm) && modalSaving == old(modalSaving)
    {
      filters := Filters(department, status);
    }

    method SetSearchTerm(term: string)
      modifies this
      ensures searchTerm == term
      ensures facultyList == old(facultyList) && filters == old(filters) && modalSaving == old(modalSaving)
    {
      searchTerm := term;
    }

    /** `setFacultyList((prev) => [created, ...prev])`: the created record
      goes first and the rest keep their order. */
    method AddCreated(created: FacultyRow)
      modifies this
      ensures facultyList == [created] + old(facultyList)
      ensures searchTerm == old(searchTerm) && filters == old(filters) && modalSaving == old(modalSaving)
    {
      facultyList := [created] + facultyList;
    }

    /** `handleSaveFaculty` as written: its second statement calls
      `setModalMessage`, which the component never declares, so it throws
      before the `try` whatever the server would have answered. No request
      is made, the list stays as it was, and since the `finally` is never
      reached `modalSaving` stays set. */
    method SaveFacultyAsWritten(answer: SaveAnswer) returns (r: SaveResult)
      modifies this
      ensures r == SaveError(UndeclaredModalMessage)
      ensures modalSaving
      ensures facultyList == old(facultyList) && searchTerm == old(searchTerm) && filters == old(filters)
    {
      modalSaving := true;
      r := SaveError(UndeclaredModalMessage);
    }

    /** `handleSaveFaculty` without the undeclared call: the created record
      goes in front of the list, a failed save leaves the list alone, and
      the `finally` clears `modalSaving` either way. */
    method SaveFaculty(answer: SaveAnswer) returns (r: SaveResult)
      modifies this
      ensures r == SaveOutcome(answer)
      ensures r.CreatedRecord? ==> facultyList == [r.record] + old(facultyList)
      ensures r.SaveError? ==> facultyList == old(facultyList)
      ensures !modalSaving
      ensures searchTerm == old(searchTerm) && filters == old(filters)
    {
      modalSaving := true;
      r := SaveOutcome(answer);
      if r.CreatedRecord? {
        AddCreated(r.record);
      }
      modalSaving := false;
    }
  }
}
