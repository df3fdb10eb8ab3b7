/** The faculty endpoints of the Laravel back end: how `store` turns a
    request payload into the columns of a new faculty row, how `update`
    copies only the keys a payload carries, and how both recognise an
    inline `data:<mime>;base64,<payload>` picture (the shape of section 3
    of RFC 2397), guard its size and name the stored file. */
module FacultyController {
  import opened Values
  import opened Text
  import opened Seqs
  import opened Encoding

  /** `$request->all()`: request keys to values. */
  type Payload = map<string, Val>

  /** The columns of a faculty row, all of them fillable. */
  datatype Column =
    | FacultyId | FirstName | LastName | Name | Email | Department | Position
    | PhoneNumber | ProfilePicture | Status | Region | Province | City

  /** The column's name in the `faculties` table. */
  function ColumnName(c: Column): string {
    match c
    case FacultyId => "faculty_id"
    case FirstName => "first_name"
    case LastName => "last_name"
    case Name => "name"
    case Email => "email"
    case Department => "department"
    case Position => "position"
    case PhoneNumber => "phone_number"
    case ProfilePicture => "profile_picture"
    case Status => "status"
    case Region => "region"
    case Province => "province"
    case City => "city"
  }

  /** Column values of a faculty row. */
  type Row = map<Column, Val>

  /** A JSON response: the saved row, an error status with its message, or
      the 500 Laravel answers with when the controller throws. */
  datatype Response = Saved(row: Row) | Rejected(status: nat, message: string) | ServerError(status: nat)

  /** The outcome of the picture step: the column value to store, or the 422 refusal. */
  datatype Upload = Stored(value: Val) | TooLargeOrInvalid

  const MaxImageBytes: nat := 50 * 1024 * 1024
  const UploadRefusal: string := "Uploaded image is too large or invalid"
  const UploadDirectory: string := "/uploads/faculties/"

  /** The request key `update` reads a column from; `faculty_id` has none. */
  function UpdateSource(c: Column): Option<string> {
    match c
    case FacultyId => None
    case FirstName => Some("FirstName")
    case LastName => Some("LastName")
    case Name => Some("Name")
    case Email => Some("Email")
    case Department => Some("Department")
    case Position => Some("Position")
    case PhoneNumber => Some("PhoneNumber")
    case ProfilePicture => Some("ProfilePicture")
    case Status => Some("Status")
    case Region => Some("Region")
    case Province => Some("Province")
    case City => Some("City")
  }

  /** The payload carries the key `update` reads column `c` from. */
  predicate Updates(p: Payload, c: Column) {
    UpdateSource(c).Some? && UpdateSource(c).value in p
  }

  // ---------------------------------------------------------------------
  // Data URLs

  datatype DataUrl = DataUrl(mime: string, data: string)

  /** The pieces of a string that the pattern `^data:(.*?);base64,(.*)$`
      matches as a whole: neither group holds a line feed (`.` stops at one),
      and `$` also matches before a single final line feed. Laziness is not
      part of this predicate. */
  predicate IsDataUrlSplit(s: string, mime: string, data: string) {
    '\n' !in mime && '\n' !in data &&
    (s == "data:" + mime + Base64Marker + data || s == "data:" + mime + Base64Marker + data + "\n")
  }

  /** The text `$` lets the pattern see: all of `s`, or all but a final line feed. */
  function BeforeFinalNewline(s: string): (r: string)
    ensures s == r || s == r + "\n"
  {
    if |s| > 0 && s[|s| - 1] == '\n' then s[..|s| - 1] else s
  }

  const Base64Marker: string := ";base64,"

  /** `preg_match('/^data:(.*?);base64,(.*)$/', $s, $m)`: the two groups when
      the pattern matches. The lazy first group ends at the first `;base64,`. */
  function DataUrlMatch(s: string): Option<DataUrl> {
    if !("data:" <= s) then None
    else
      var line := BeforeFinalNewline(s[5..]);
      if '\n' in line then None
      else
        match FindSub(line, Base64Marker)
        case None => None
        case Some(p) => Some(DataUrl(line[..p], line[p + 8..]))
  }

  lemma MatchedLineParts(line: string, p: nat)
    requires '\n' !in line && FindSub(line, Base64Marker) == Some(p)
    ensures line == line[..p] + Base64Marker + line[p + 8..]
    ensures '\n' !in line[..p] && '\n' !in line[p + 8..]
  {
    NotInSlice(line, '\n', 0, p);
    NotInSlice(line, '\n', p + 8, |line|);
    assert line[..p] == line[0..p] && line[p + 8..] == line[p + 8..|line|];
    assert line[p..p + 8] == Base64Marker;
  }

  /** The marker cannot start inside the `data:` scheme. */
  lemma NoMarkerInScheme(s: string, j: nat)
    requires "data:" <= s && j < 5
    ensures !OccursAt(s, Base64Marker, j)
  {
    assert s[j] == "data:"[j];
  }

  /** An occurrence in `body` that starts in the line lies in the line when
      the line is `body` without a final line feed. */
  lemma MarkerInBodyIsInLine(body: string, i: nat)
    requires OccursAt(body, Base64Marker, i)
    ensures OccursAt(BeforeFinalNewline(body), Base64Marker, i)
  {
    var line := BeforeFinalNewline(body);
    if i + 8 <= |line| {
      OccursAtPrefix(body, line, Base64Marker, i);
    }
  }

  lemma NoMarkerBefore(s: string, p: nat, j: nat)
    requires "data:" <= s && j < 5 + p
    requires FindSub(BeforeFinalNewline(s[5..]), Base64Marker) == Some(p)
    ensures !OccursAt(s, Base64Marker, j)
  {
    if j < 5 {
      NoMarkerInScheme(s, j);
    } else {
      var body := s[5..];
      OccursAtSlice(s, Base64Marker, 5, j - 5);
      if OccursAt(body, Base64Marker, j - 5) {
        MarkerInBodyIsInLine(body, j - 5);
      }
    }
  }

  /** No occurrence of the marker before position `5 + p` of the string when
      the first one in the matched line is at `p`. */
  lemma FirstMarker(s: string, p: nat)
    requires "data:" <= s
    requires FindSub(BeforeFinalNewline(s[5..]), Base64Marker) == Some(p)
    ensures FindSub(s, Base64Marker) == Some(5 + p)
  {
    var body := s[5..];
    OccursAtPrefix(body, BeforeFinalNewline(body), Base64Marker, p);
    OccursAtSlice(s, Base64Marker, 5, p);
    forall j | 0 <= j < 5 + p ensures !OccursAt(s, Base64Marker, j) {
      NoMarkerBefore(s, p, j);
    }
    FindSubFirst(s, Base64Marker, 5 + p);
  }

  /** A match splits the string as the pattern does, and the mime group
      ends at the first `;base64,` of the whole string, as laziness demands. */
  lemma DataUrlMatchSound(s: string)
    requires DataUrlMatch(s).Some?
    ensures var d := DataUrlMatch(s).value;
      IsDataUrlSplit(s, d.mime, d.data) && FindSub(s, Base64Marker) == Some(5 + |d.mime|)
  {
    var line := BeforeFinalNewline(s[5..]);
    var p := FindSub(line, Base64Marker).value;
    var mime, data := line[..p], line[p + 8..];
    assert DataUrlMatch(s).value == DataUrl(mime, data);
    MatchedLineParts(line, p);
    FirstMarker(s, p);
    assert s == "data:" + s[5..];
    ConcatShape(s, s[5..], line, mime, data);
  }

  lemma ConcatShape(s: string, body: string, line: string, mime: string, data: string)
    requires s == "data:" + body && (body == line || body == line + "\n")
    requires line == mime + Base64Marker + data
    ensures s == "data:" + mime + Base64Marker + data || s == "data:" + mime + Base64Marker + data + "\n"
  {
  }

  /** Every string the pattern can match is matched. */
  lemma DataUrlMatchComplete(s: string, mime: string, data: string)
    requires IsDataUrlSplit(s, mime, data)
    ensures DataUrlMatch(s).Some?
  {
    var line := mime + Base64Marker + data;
    var body := s[5..];
    assert "data:" <= s && (body == line || body == line + "\n");
    MarkedLine(mime, data);
    assert BeforeFinalNewline(body) == line by {
      if body == line + "\n" {
        assert body[..|body| - 1] == line;
      }
    }
    assert OccursAt(line, Base64Marker, |mime|);
  }

  /** The text after `data:` holds no line feed and does not end in one. */
  lemma MarkedLine(mime: string, data: string)
    requires '\n' !in mime && '\n' !in data
    ensures var line := mime + Base64Marker + data;
      '\n' !in line && |line| > 0 && line[|line| - 1] != '\n'
  {
    var line := mime + Base64Marker + data;
    forall k | 0 <= k < |line| ensures line[k] != '\n' {
      if k < |mime| {
        assert line[k] == mime[k];
      } else if k >= |mime| + 8 {
        assert line[k] == data[k - |mime| - 8];
      } else {
        assert line[k] == Base64Marker[k - |mime|];
      }
    }
  }

  /** The file extension: `png` when the mime type has no `/`, otherwise the
      piece after the first `/` (up to any next one) with every character
      that is not an ASCII letter or digit removed. */
  function Extension(mime: string): (ext: string)
    ensures '/' !in mime ==> ext == "png"
    ensures forall i :: 0 <= i < |ext| ==> IsAsciiAlphanumeric(ext[i])
  {
    if '/' !in mime then "png"
    else
      SplitHead(mime, '/');
      var ext := Filter(c => IsAsciiAlphanumeric(c), Split(mime, '/')[1]);
      assert forall i :: 0 <= i < |ext| ==> ext[i] in ext;
      ext
  }

  /** Where the extension comes from when the mime type has a `/`: the
      alphanumeric characters, in order, of the text between the first `/`
      and the next `/` or the end. */
  lemma ExtensionOfSubtype(mime: string)
    requires '/' in mime
    ensures var rest := mime[IndexOf(mime, '/') + 1..];
      Extension(mime) == Filter(c => IsAsciiAlphanumeric(c), rest[..IndexOf(rest, '/')])
  {
    SplitTail(mime, '/');
    var rest := mime[IndexOf(mime, '/') + 1..];
    SplitHead(rest, '/');
    assert Split(mime, '/')[1] == Split(rest, '/')[0];
  }

  /** The public path of a stored upload: `/uploads/faculties/fac_<random>.<ext>`. */
  function UploadPath(random: string, ext: string): string {
    UploadDirectory + "fac_" + random + "." + ext
  }

  /** The picture step shared by `store` and `update`. A value that is not a
      non-empty string starting with `data:`, or that the pattern does not
      match, is kept as it is. A matched payload that does not decode, or
      decodes to more than 50 MiB, is refused. Otherwise the column holds the
      path of the new file. `decode` stands for `base64_decode` and `random`
      for `Str::random(12)`. */
  function ProcessPicture(picture: Val, decode: string -> Option<seq<uint8>>, random: string): (u: Upload)
    ensures u.TooLargeOrInvalid? <==>
      PhpTruthy(picture) && DataUrlMatch(picture.s).Some? &&
      var bytes := decode(DataUrlMatch(picture.s).value.data);
      bytes.None? || |bytes.value| > MaxImageBytes
    ensures u.Stored? && u.value != picture ==>
      PhpTruthy(picture) && DataUrlMatch(picture.s).Some? &&
      u.value == Str(UploadPath(random, Extension(DataUrlMatch(picture.s).value.mime)))
    ensures (PhpTruthy(picture) && DataUrlMatch(picture.s).Some? &&
        var bytes := decode(DataUrlMatch(picture.s).value.data); bytes.Some? && |bytes.value| <= MaxImageBytes) ==>
      u == Stored(Str(UploadPath(random, Extension(DataUrlMatch(picture.s).value.mime))))
    ensures !PhpTruthy(picture) || DataUrlMatch(picture.s).None? ==> u == Stored(picture)
  {
    if !PhpTruthy(picture) || !("data:" <= picture.s) then Stored(picture)
    else
      match DataUrlMatch(picture.s)
      case None => Stored(picture)
      case Some(d) =>
        var bytes := decode(d.data);
        if bytes.None? || |bytes.value| > MaxImageBytes then TooLargeOrInvalid
        else Stored(Str(UploadPath(random, Extension(d.mime))))
  }

  /** A stored path always lies in the upload directory, is named after the
      random text and ends in an alphanumeric extension. */
  lemma StoredPathShape(picture: Val, decode: string -> Option<seq<uint8>>, random: string)
    requires |random| == 12
    requires ProcessPicture(picture, decode, random).Stored?
    requires ProcessPicture(picture, decode, random).value != picture
    ensures var path := ProcessPicture(picture, decode, random).value.s;
      |path| >= 36 && path[..23] == UploadDirectory + "fac_" && path[35] == '.' &&
      path[23..35] == random &&
      forall i :: 36 <= i < |path| ==> IsAsciiAlphanumeric(path[i])
  {
    UploadPathShape(random, Extension(DataUrlMatch(picture.s).value.mime));
  }

  /** The layout of an upload path with a 12-character random part. */
  lemma UploadPathShape(random: string, ext: string)
    requires |random| == 12
    requires forall i :: 0 <= i < |ext| ==> IsAsciiAlphanumeric(ext[i])
    ensures var path := UploadPath(random, ext);
      |path| >= 36 && path[..23] == UploadDirectory + "fac_" && path[35] == '.' &&
      path[23..35] == random &&
      forall i :: 36 <= i < |path| ==> IsAsciiAlphanumeric(path[i])
  {
    var path := UploadPath(random, ext);
    assert path == UploadDirectory + "fac_" + random + "." + ext;
    assert forall i :: 36 <= i < |path| ==> path[i] == ext[i - 36];
  }

  // ---------------------------------------------------------------------
  // store

  /** `first_name`: `FirstName` when given, else the text of `Name` before
      its first space when `Name` is truthy, else null. */
  function FirstNameOf(p: Payload): Val {
    var name := Get(p, "Name");
    Coalesce(Get(p, "FirstName"), if PhpTruthy(name) then Str(Split(name.s, ' ')[0]) else Null)
  }

  /** `last_name`: `LastName` when given, else the pieces of a truthy `Name`
      after the first, joined by spaces, else null. */
  function LastNameOf(p: Payload): Val {
    var name := Get(p, "Name");
    Coalesce(Get(p, "LastName"), if PhpTruthy(name) then Str(Join(Split(name.s, ' ')[1..], ' ')) else Null)
  }

  /** `name`: `Name` when given, else the trimmed `first last`, with a
      missing part read as the empty string. */
  function FullNameOf(p: Payload): Val {
    Coalesce(Get(p, "Name"),
      Str(Trim(OrEmpty(FirstNameOf(p)) + " " + OrEmpty(LastNameOf(p)), PhpWhitespace)))
  }

  /** Without `FirstName` and `LastName`, a truthy `Name` is cut at its first
      space: the first name holds no space, and first name, a space and last
      name give `Name` back; a name without a space becomes the first name
      with an empty last name. `name` keeps `Name` itself. */
  lemma NameSplit(p: Payload)
    requires Get(p, "FirstName") == Null && Get(p, "LastName") == Null
    requires PhpTruthy(Get(p, "Name"))
    ensures var n, f, l := Get(p, "Name").s, FirstNameOf(p), LastNameOf(p);
      f.Str? && l.Str? && ' ' !in f.s &&
      (' ' in n ==> f.s + " " + l.s == n) &&
      (' ' !in n ==> f.s == n && l.s == "") &&
      FullNameOf(p) == Get(p, "Name")
  {
    var n := Get(p, "Name").s;
    var parts := Split(n, ' ');
    SplitHead(n, ' ');
    SplitPartsAvoidSeparator(n, ' ');
    assert ' ' !in parts[0];
    if ' ' in n {
      var i := IndexOf(n, ' ');
      SplitTail(n, ' ');
      JoinSplit(n[i + 1..], ' ');
      assert n == n[..i] + " " + n[i + 1..];
    } else {
      assert IndexOf(n, ' ') == |n|;
      assert parts[1..] == [];
    }
  }

  /** Without `Name`, the given first and last names are kept and `name` is
      built from them, trimmed, so that it has no surrounding whitespace. */
  lemma NameFromParts(p: Payload)
    requires Get(p, "Name") == Null
    ensures FirstNameOf(p) == Get(p, "FirstName") && LastNameOf(p) == Get(p, "LastName")
    ensures var full := FullNameOf(p).s;
      FullNameOf(p).Str? &&
      (full == [] || (full[0] !in PhpWhitespace && full[|full| - 1] !in PhpWhitespace))
  {
    TrimIsSlice(OrEmpty(Get(p, "FirstName")) + " " + OrEmpty(Get(p, "LastName")), PhpWhitespace);
  }

  /** Without a `Name` key, falling back from a null `FirstName` or
      `LastName` reads the undefined `$payload['Name']`, which Laravel turns
      into an exception. (Present but null is read without complaint.) */
  predicate ReadsMissingName(p: Payload) {
    "Name" !in p && (Get(p, "FirstName") == Null || Get(p, "LastName") == Null)
  }

  /** `FacultyController::store`: the new row's columns, filled one by one
      from the payload; reading an absent `Name` fails with 500 and a refused
      picture returns 422, both before anything is created. `faculty_id` is
      copied from the request, never computed. */
  method Store(p: Payload, decode: string -> Option<seq<uint8>>, random: string) returns (r: Response)
    ensures r.ServerError? <==> ReadsMissingName(p)
    ensures r.ServerError? ==> r.status == 500
    ensures r.Rejected? <==>
      !ReadsMissingName(p) && ProcessPicture(Get(p, "ProfilePicture"), decode, random).TooLargeOrInvalid?
    ensures r.Rejected? ==> r.status == 422 && r.message == UploadRefusal
    ensures r.Saved? ==> forall c :: c in r.row
    ensures r.Saved? ==>
      r.row[FacultyId] == Coalesce(Get(p, "FacultyID"), Get(p, "faculty_id")) &&
      r.row[FirstName] == FirstNameOf(p) &&
      r.row[LastName] == LastNameOf(p) &&
      r.row[Name] == FullNameOf(p) &&
      r.row[Email] == Coalesce(Get(p, "Email"), Get(p, "email")) &&
      r.row[Department] == Get(p, "Department") &&
      r.row[Position] == Get(p, "Position") &&
      r.row[PhoneNumber] == Get(p, "PhoneNumber") &&
      r.row[ProfilePicture] == ProcessPicture(Get(p, "ProfilePicture"), decode, random).value &&
      r.row[Status] == Get(p, "Status") &&
      r.row[Region] == Get(p, "Region") &&
      r.row[Province] == Get(p, "Province") &&
      r.row[City] == Get(p, "City")
  {
    if ReadsMissingName(p) {
      return ServerError(500);
    }
    r := FillColumns(p, decode, random);
  }

  /** `store` once reading the name keys cannot throw: the columns in the
      controller's order, with the picture step, which may refuse, between
      the person columns and the place columns. */
  method FillColumns(p: Payload, decode: string -> Option<seq<uint8>>, random: string) returns (r: Response)
    ensures r.Saved? || r.Rejected?
    ensures r.Rejected? <==> ProcessPicture(Get(p, "ProfilePicture"), decode, random).TooLargeOrInvalid?
    ensures r.Rejected? ==> r.status == 422 && r.message == UploadRefusal
    ensures r.Saved? ==> forall c :: c in r.row
    ensures r.Saved? ==>
      r.row[FacultyId] == Coalesce(Get(p, "FacultyID"), Get(p, "faculty_id")) &&
      r.row[FirstName] == FirstNameOf(p) &&
      r.row[LastName] == LastNameOf(p) &&
      r.row[Name] == FullNameOf(p) &&
      r.row[Email] == Coalesce(Get(p, "Email"), Get(p, "email")) &&
      r.row[Department] == Get(p, "Department") &&
      r.row[Position] == Get(p, "Position") &&
      r.row[PhoneNumber] == Get(p, "PhoneNumber") &&
      r.row[ProfilePicture] == ProcessPicture(Get(p, "ProfilePicture"), decode, random).value &&
      r.row[Status] == Get(p, "Status") &&
      r.row[Region] == Get(p, "Region") &&
      r.row[Province] == Get(p, "Province") &&
      r.row[City] == Get(p, "City")
  {
    // The name columns are derived in the order the controller fills them:
    // first name, last name, then the full name from the two.
    var first, last := FirstNameOf(p), LastNameOf(p);
    var full := FullNameOf(p);
    var data: Row := map[
      FacultyId := Coalesce(Get(p, "FacultyID"), Get(p, "faculty_id")),
      FirstName := first, LastName := last, Name := full,
      Email := Coalesce(Get(p, "Email"), Get(p, "email")),
      Department := Get(p, "Department"), Position := Get(p, "Position"),
      PhoneNumber := Get(p, "PhoneNumber"), ProfilePicture := Get(p, "ProfilePicture")];
    var upload := ProcessPicture(data[ProfilePicture], decode, random);
    if upload.TooLargeOrInvalid? {
      return Rejected(422, UploadRefusal);
    }
    data := data[ProfilePicture := upload.value][Status := Get(p, "Status")][Region := Get(p, "Region")]
      [Province := Get(p, "Province")][City := Get(p, "City")];
    forall c: Column ensures c in data {
      match c
      case FacultyId => case FirstName => case LastName => case Name => case Email =>
      case Department => case Position => case PhoneNumber => case ProfilePicture =>
      case Status => case Region => case Province => case City =>
    }
    r := Saved(data);
  }

  // ---------------------------------------------------------------------
  // update

  /** `if (array_key_exists($key, $payload)) $data[$column] = $payload[$key];`
      for column `c` and the request key `update` reads it from. */
  function CopyIfPresent(data: Row, p: Payload, c: Column): (r: Row)
    requires UpdateSource(c).Some?
    ensures forall d :: d != c ==> (d in r <==> d in data) && (d in data ==> r[d] == data[d])
    ensures c in r <==> Updates(p, c) || c in data
    ensures c in r ==> r[c] == if Updates(p, c) then p[UpdateSource(c).value] else data[c]
  {
    var key := UpdateSource(c).value;
    if key in p then data[c := p[key]] else data
  }

  /** The position of a column in the order `update` visits them. */
  function Rank(c: Column): (k: nat)
    ensures k <= 12 && ColumnAt(k) == c
  {
    match c
    case FacultyId => 0 case FirstName => 1 case LastName => 2 case Name => 3
    case Email => 4 case Department => 5 case Position => 6 case PhoneNumber => 7
    case ProfilePicture => 8 case Status => 9 case Region => 10 case Province => 11
    case City => 12
  }

  function ColumnAt(k: nat): Column
    requires k <= 12
  {
    if k == 0 then FacultyId else if k == 1 then FirstName else if k == 2 then LastName
    else if k == 3 then Name else if k == 4 then Email else if k == 5 then Department
    else if k == 6 then Position else if k == 7 then PhoneNumber else if k == 8 then ProfilePicture
    else if k == 9 then Status else if k == 10 then Region else if k == 11 then Province
    else City
  }

  /** After the first `k` copies, `data` holds exactly the columns up to
      rank `k` that the payload updates, with the payload's values; the
      picture's value is left open, since the picture step rewrites it. */
  predicate CopiedUpTo(data: Row, p: Payload, k: nat) {
    (forall c :: c in data <==> Rank(c) <= k && Updates(p, c)) &&
    (forall c :: c in data && c != ProfilePicture ==> data[c] == p[UpdateSource(c).value])
  }

  lemma CopyStep(data: Row, p: Payload, k: nat)
    requires k < 12 && CopiedUpTo(data, p, k)
    ensures CopiedUpTo(CopyIfPresent(data, p, ColumnAt(k + 1)), p, k + 1)
  {
    var c := ColumnAt(k + 1);
    assert Rank(c) == k + 1;
    var r := CopyIfPresent(data, p, c);
    forall d ensures d in r <==> Rank(d) <= k + 1 && Updates(p, d) {
      if d != c {
        assert Rank(d) != k + 1;
      }
    }
  }

  lemma PictureStep(data: Row, p: Payload, k: nat, v: Val)
    requires CopiedUpTo(data, p, k) && ProfilePicture in data
    ensures CopiedUpTo(data[ProfilePicture := v], p, k)
  {
  }

  /** The copies `update` makes before the picture step: the name, contact
      and picture columns. */
  method CopyPersonColumns(p: Payload) returns (data: Row)
    ensures CopiedUpTo(data, p, 8)
    ensures ProfilePicture in data ==> data[ProfilePicture] == p["ProfilePicture"]
  {
    data := map[];
    CopyStep(data, p, 0);
    data := CopyIfPresent(data, p, FirstName);
    CopyStep(data, p, 1);
    data := CopyIfPresent(data, p, LastName);
    CopyStep(data, p, 2);
    data := CopyIfPresent(data, p, Name);
    CopyStep(data, p, 3);
    data := CopyIfPresent(data, p, Email);
    CopyStep(data, p, 4);
    data := CopyIfPresent(data, p, Department);
    CopyStep(data, p, 5);
    data := CopyIfPresent(data, p, Position);
    CopyStep(data, p, 6);
    data := CopyIfPresent(data, p, PhoneNumber);
    CopyStep(data, p, 7);
    data := CopyIfPresent(data, p, ProfilePicture);
  }

  /** The copies `update` makes after the picture step: status and location. */
  method CopyPlaceColumns(data0: Row, p: Payload) returns (data: Row)
    requires CopiedUpTo(data0, p, 8)
    ensures CopiedUpTo(data, p, 12)
    ensures forall c :: c in data0 && Rank(c) <= 8 ==> c in data && data[c] == data0[c]
  {
    data := data0;
    CopyStep(data, p, 8);
    data := CopyIfPresent(data, p, Status);
    CopyStep(data, p, 9);
    data := CopyIfPresent(data, p, Region);
    CopyStep(data, p, 10);
    data := CopyIfPresent(data, p, Province);
    CopyStep(data, p, 11);
    data := CopyIfPresent(data, p, City);
  }

  /** The changes `FacultyController::update` applies: a column for exactly
      each of its request keys the payload carries, with that key's value,
      except that the picture goes through the picture step. */
  method UpdateData(p: Payload, decode: string -> Option<seq<uint8>>, random: string) returns (r: Response)
    ensures r.Rejected? <==>
      "ProfilePicture" in p && ProcessPicture(p["ProfilePicture"], decode, random).TooLargeOrInvalid?
    ensures r.Rejected? ==> r.status == 422 && r.message == UploadRefusal
    ensures r.Saved? || r.Rejected?
    ensures r.Saved? ==> forall c :: c in r.row <==> Updates(p, c)
    ensures r.Saved? ==> forall c :: Updates(p, c) && c != ProfilePicture ==>
      c in r.row && r.row[c] == p[UpdateSource(c).value]
    ensures r.Saved? && "ProfilePicture" in p ==>
      ProfilePicture in r.row && r.row[ProfilePicture] == ProcessPicture(p["ProfilePicture"], decode, random).value
  {
    var data := CopyPersonColumns(p);
    assert ProfilePicture in data <==> "ProfilePicture" in p by {
      assert Rank(ProfilePicture) == 8;
    }
    if ProfilePicture in data {
      var upload := ProcessPicture(data[ProfilePicture], decode, random);
      if upload.TooLargeOrInvalid? {
        return Rejected(422, UploadRefusal);
      }
      PictureStep(data, p, 8, upload.value);
      data := data[ProfilePicture := upload.value];
    }
    data := CopyPlaceColumns(data, p);
    r := Saved(data);
  }

  /** A stored faculty row, which `update` changes in place. */
  class FacultyRecord {
    var attributes: Row

    constructor (row: Row)
      ensures attributes == row
    {
      attributes := row;
    }

    /** `FacultyController::update`: on a refused picture nothing changes;
        otherwise the payload's columns are overwritten or added, the picture
        through the picture step, every other column (`faculty_id` among
        them) keeps its value, and the response is the updated row. */
    method Update(p: Payload, decode: string -> Option<seq<uint8>>, random: string) returns (r: Response)
      modifies this
      ensures r.Saved? || r.Rejected?
      ensures r.Rejected? <==>
        "ProfilePicture" in p && ProcessPicture(p["ProfilePicture"], decode, random).TooLargeOrInvalid?
      ensures r.Rejected? ==> attributes == old(attributes) && r.status == 422 && r.message == UploadRefusal
      ensures r.Saved? ==> r.row == attributes
      ensures r.Saved? ==> forall c :: c in attributes <==> c in old(attributes) || Updates(p, c)
      ensures r.Saved? && "ProfilePicture" in p ==>
        ProfilePicture in attributes && attributes[ProfilePicture] == ProcessPicture(p["ProfilePicture"], decode, random).value
      ensures r.Saved? ==> forall c :: c in old(attributes) && !Updates(p, c) ==>
        c in attributes && attributes[c] == old(attributes)[c]
      ensures r.Saved? ==> forall c :: Updates(p, c) && c != ProfilePicture ==>
        c in attributes && attributes[c] == p[UpdateSource(c).value]
      ensures FacultyId in old(attributes) ==>
        FacultyId in attributes && attributes[FacultyId] == old(attributes)[FacultyId]
    {
      var changes := UpdateData(p, decode, random);
      if changes.Rejected? {
        return changes;
      }
      attributes := attributes + changes.row;
      r := Saved(attributes);
    }
  }
}
