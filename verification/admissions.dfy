/** The admission handlers of app.py. `submit_admission` reads a form,
    computes the fee, keeps the photo path only for an allowed image, and
    stores one row; `admin_view` turns the stored rows into records keyed by
    column name. The students table is a multiset of rows: the model keeps
    no order, as `SELECT *` promises none. */
module Admissions {
  import opened Wrappers
  import opened Text
  import opened Fees
  import opened Uploads

  /** A multi-valued request field (werkzeug's MultiDict): each key holds the
      values sent under it, in order. */
  type MultiDict<T> = map<string, seq<T>>

  /** `d[key]` and `d.get(key)`: the first value sent under `key`. */
  function First<T>(d: MultiDict<T>, key: string): Option<T> {
    if key in d && |d[key]| > 0 then Some(d[key][0]) else None
  }

  /** `d.getlist(key)`: every value sent under `key`. */
  function GetList<T>(d: MultiDict<T>, key: string): seq<T> {
    if key in d then d[key] else []
  }

  predicate Present(form: MultiDict<string>, key: string) {
    First(form, key).Some?
  }

  datatype Upload = Upload(filename: string)

  /** What the handler reads from a request: the form fields and the files. */
  datatype Request = Request(form: MultiDict<string>, files: MultiDict<Upload>)

  /** The fields read with `request.form[...]`, in the order they are read. */
  const RequiredFields: seq<string> :=
    ["name", "guardian-name", "guardian-phone", "dob", "address", "class"]

  /** UPLOAD_FOLDER. */
  const UploadFolder: string := "uploads"

  const SubjectSeparator: string := ", "

  const SuccessMessage: string := "Admission submitted successfully!"

  /** The ten values inserted for one submission. */
  datatype Admission = Admission(
    name: string,
    guardianName: string,
    guardianPhone: string,
    studentPhone: string,
    dob: string,
    address: string,
    className: string,
    subjects: string,
    photoPath: Option<string>,
    fees: int)

  /** Why a submission fails: a required form field is absent, or saving
      the photo or the row failed. */
  datatype SubmitError = MissingField(field: string) | StorageError

  /** The JSON answer: the message and the fee, or the error. */
  datatype Response = Submitted(message: string, fees: int) | Failed(error: SubmitError)

  /** `os.path.join(dir, file)` for a directory without a trailing slash: an
      absolute `file` replaces the directory. */
  function JoinPath(dir: string, file: string): string {
    if |file| > 0 && file[0] == '/' then file else dir + "/" + file
  }

  /** The first required field, in the order `submit_admission` reads them,
      that the form lacks: reading it raises, so the fields after it are
      never read. */
  function FirstAbsentField(form: MultiDict<string>): Option<string> {
    if !Present(form, "name") then Some("name")
    else if !Present(form, "guardian-name") then Some("guardian-name")
    else if !Present(form, "guardian-phone") then Some("guardian-phone")
    else if !Present(form, "dob") then Some("dob")
    else if !Present(form, "address") then Some("address")
    else if !Present(form, "class") then Some("class")
    else None
  }

  /** Where an accepted photo is saved: `os.path.join(UPLOAD_FOLDER,
      secure_filename(photo.filename))`; `sanitize` stands for
      `secure_filename`. A missing or refused photo gives no path. */
  function PhotoPath(photo: Option<Upload>, sanitize: string -> string): Option<string> {
    if photo.Some? && AllowedFile(photo.value.filename)
    then Some(JoinPath(UploadFolder, sanitize(photo.value.filename)))
    else None
  }

  /** The row `submit_admission` would insert for `request`, or the error it
      raises first. A missing required field raises at its `request.form`
      lookup, before any INSERT is tried, so the table's NOT NULL
      constraints never see a missing value. */
  function Admit(request: Request, sanitize: string -> string): Result<Admission, SubmitError> {
    var form := request.form;
    if FirstAbsentField(form).Some? then Err(MissingField(FirstAbsentField(form).value))
    else
      var selected := GetList(form, "subjects");
      Ok(Admission(
        First(form, "name").value,
        First(form, "guardian-name").value,
        First(form, "guardian-phone").value,
        First(form, "student-phone").GetOr(""),
        First(form, "dob").value,
        First(form, "address").value,
        First(form, "class").value,
        Join(SubjectSeparator, selected),
        PhotoPath(First(request.files, "photo"), sanitize),
        CalculateFees(selected)))
  }

  // ---------------------------------------------------------------------
  // What a submission stores
  // ---------------------------------------------------------------------

  /** A column value as SQLite hands it back. */
  datatype Value = Integer(n: int) | Str(s: string) | Null

  type Row = seq<Value>

  /** The columns of the students table, in order; `admin_view` uses the
      same names as record keys. */
  const Columns: seq<string> := [
    "id", "name", "guardian_name", "guardian_phone", "student_phone", "dob",
    "address", "class", "subjects", "photo_path", "fees"]

  function OptionalText(o: Option<string>): Value {
    match o
    case Some(s) => Str(s)
    case None => Null
  }

  /** The stored row: the identifier the database chose, then the ten values
      in the order of the INSERT statement. */
  function StoredRow(id: int, a: Admission): (row: Row)
    ensures |row| == |Columns|
    ensures WellFormedRow(row)
  {
    [Integer(id), Str(a.name), Str(a.guardianName), Str(a.guardianPhone),
     Str(a.studentPhone), Str(a.dob), Str(a.address), Str(a.className),
     Str(a.subjects), OptionalText(a.photoPath), Integer(a.fees)]
  }

  /** A row the schema admits: eleven columns, an integer key, text in every
      NOT NULL text column, and a number in `fees`. */
  predicate WellFormedRow(row: Row) {
    |row| == |Columns| &&
    row[0].Integer? &&
    row[1].Str? && row[2].Str? && row[3].Str? &&
    row[5].Str? && row[6].Str? && row[7].Str? &&
    row[10].Integer?
  }

  /** The students table. */
  class StudentTable {
    var rows: multiset<Row>

    ghost predicate Valid()
      reads this
    {
      forall row :: row in rows ==> WellFormedRow(row)
    }

    /** `init_db` on a fresh database: an empty table. */
    constructor ()
      ensures Valid() && rows == multiset{}
    {
      rows := multiset{};
    }

    /** `submit_admission`. `id` is the key the database assigns to the new
        row; `stored` says whether saving the photo and inserting and
        committing the row succeed. On any failure nothing is stored. */
    method Submit(request: Request, sanitize: string -> string, id: int, stored: bool)
      returns (response: Response)
      requires Valid()
      modifies this
      ensures Valid()
      ensures Admit(request, sanitize).Err? ==>
                response == Failed(Admit(request, sanitize).error) && rows == old(rows)
      ensures Admit(request, sanitize).Ok? && !stored ==>
                response == Failed(StorageError) && rows == old(rows)
      ensures Admit(request, sanitize).Ok? && stored ==>
                response == Submitted(SuccessMessage, Admit(request, sanitize).value.fees) &&
                rows == old(rows) + multiset{StoredRow(id, Admit(request, sanitize).value)}
    {
      var admitted := ReadAdmission(request, sanitize);
      if admitted.Err? {
        return Failed(admitted.error);
      }
      if !stored {
        return Failed(StorageError);
      }
      rows := rows + multiset{StoredRow(id, admitted.value)};
      response := Submitted(SuccessMessage, admitted.value.fees);
    }
  }

  /** The `try` block of `submit_admission` up to the INSERT: read the
      required fields in order, stopping at the first one missing, then
      join the subjects, add up their fees and decide where the photo
      goes. */
  method ReadAdmission(request: Request, sanitize: string -> string)
    returns (admitted: Result<Admission, SubmitError>)
    ensures admitted == Admit(request, sanitize)
  {
    var form := request.form;
    var name := First(form, "name");
    if name.None? {
      return Err(MissingField("name"));
    }
    var guardianName := First(form, "guardian-name");
    if guardianName.None? {
      return Err(MissingField("guardian-name"));
    }
    var guardianPhone := First(form, "guardian-phone");
    if guardianPhone.None? {
      return Err(MissingField("guardian-phone"));
    }
    var studentPhone := First(form, "student-phone").GetOr("");
    var dob := First(form, "dob");
    if dob.None? {
      return Err(MissingField("dob"));
    }
    var address := First(form, "address");
    if address.None? {
      return Err(MissingField("address"));
    }
    var className := First(form, "class");
    if className.None? {
      return Err(MissingField("class"));
    }
    var selected := GetList(form, "subjects");
    var subjects := Join(SubjectSeparator, selected);

    var fees := CalculateFees(selected);

    var photo := First(request.files, "photo");
    var photoPath: Option<string> := None;
    if photo.Some? && AllowedFile(photo.value.filename) {
      var filename := sanitize(photo.value.filename);
      photoPath := Some(JoinPath(UploadFolder, filename));
    }

    admitted := Ok(Admission(name.value, guardianName.value, guardianPhone.value,
                             studentPhone, dob.value, address.value, className.value,
                             subjects, photoPath, fees));
  }

  /** A record as `admin_view` builds it: a dict keyed by column name. */
  type Record = map<string, Value>

  /** The record holds exactly the column names as keys, and under
      `Columns[i]` the value of column `i` of the row. */
  predicate HoldsRow(record: Record, row: Row) {
    && record.Keys == (set c | c in Columns)
    && forall i :: 0 <= i < |Columns| ==> i < |row| && Columns[i] in record && record[Columns[i]] == row[i]
  }

  /** `admin_view`: one record per fetched row, in the order the rows came
      back, each holding its row column by column. */
  method AdminView(students: seq<Row>) returns (records: seq<Record>)
    requires forall k :: 0 <= k < |students| ==> |students[k]| >= |Columns|
    ensures |records| == |students|
    ensures forall k :: 0 <= k < |records| ==> HoldsRow(records[k], students[k])
  {
    records := [];
    for k := 0 to |students|
      invariant |records| == k
      invariant forall j :: 0 <= j < k ==> HoldsRow(records[j], students[j])
    {
      var student := students[k];
      var record := map[
        "id" := student[0],
        "name" := student[1],
        "guardian_name" := student[2],
        "guardian_phone" := student[3],
        "student_phone" := student[4],
        "dob" := student[5],
        "address" := student[6],
        "class" := student[7],
        "subjects" := student[8],
        "photo_path" := student[9],
        "fees" := student[10]
      ];
      RecordHoldsRow(record, student);
      records := records + [record];
    }
  }

  /** The dict built from one row holds that row. */
  lemma RecordHoldsRow(record: Record, student: Row)
    requires |student| >= |Columns|
    requires record == map[
        "id" := student[0],
        "name" := student[1],
        "guardian_name" := student[2],
        "guardian_phone" := student[3],
        "student_phone" := student[4],
        "dob" := student[5],
        "address" := student[6],
        "class" := student[7],
        "subjects" := student[8],
        "photo_path" := student[9],
        "fees" := student[10]
      ]
    ensures HoldsRow(record, student)
  {
    assert record.Keys == (set c | c in Columns);
    forall i | 0 <= i < |Columns|
      ensures Columns[i] in record && record[Columns[i]] == student[i]
    {
    }
  }

  /** Whatever order `SELECT *` returns the stored rows in, every one of
      them has the eleven columns `AdminView` reads. */
  lemma ListingOfTable(t: StudentTable, students: seq<Row>)
    requires t.Valid() && multiset(students) == t.rows
    ensures forall k :: 0 <= k < |students| ==> |students[k]| >= |Columns|
  {
    forall k | 0 <= k < |students|
      ensures |students[k]| >= |Columns|
    {
      assert students[k] in multiset(students);
    }
  }

  /** A row stored by `Submit` is listed by `AdminView`: some record of the
      listing holds it. */
  lemma SubmittedRowListed(rows: multiset<Row>, students: seq<Row>, records: seq<Record>,
                           id: int, a: Admission)
    requires StoredRow(id, a) in rows && multiset(students) == rows
    requires |records| == |students|
    requires forall k :: 0 <= k < |records| ==> HoldsRow(records[k], students[k])
    ensures exists k :: 0 <= k < |records| && HoldsRow(records[k], StoredRow(id, a))
  {
    assert StoredRow(id, a) in students;
    var k :| 0 <= k < |students| && students[k] == StoredRow(id, a);
    assert HoldsRow(records[k], StoredRow(id, a));
  }

  /** The record listed for a stored submission shows its values under the
      column names: the key, each form value, the joined subjects, the photo
      path or null, and the fee. */
  lemma RecordOfStoredRow(rec: Record, id: int, a: Admission)
    requires HoldsRow(rec, StoredRow(id, a))
    ensures "id" in rec && rec["id"] == Integer(id)
    ensures "name" in rec && rec["name"] == Str(a.name)
    ensures "guardian_name" in rec && rec["guardian_name"] == Str(a.guardianName)
    ensures "guardian_phone" in rec && rec["guardian_phone"] == Str(a.guardianPhone)
    ensures "student_phone" in rec && rec["student_phone"] == Str(a.studentPhone)
    ensures "dob" in rec && rec["dob"] == Str(a.dob)
    ensures "address" in rec && rec["address"] == Str(a.address)
    ensures "class" in rec && rec["class"] == Str(a.className)
    ensures "subjects" in rec && rec["subjects"] == Str(a.subjects)
    ensures "photo_path" in rec && rec["photo_path"] == OptionalText(a.photoPath)
    ensures "fees" in rec && rec["fees"] == Integer(a.fees)
  {
    var row := StoredRow(id, a);
    assert rec[Columns[0]] == row[0] && rec[Columns[1]] == row[1];
    assert rec[Columns[2]] == row[2] && rec[Columns[3]] == row[3];
    assert rec[Columns[4]] == row[4] && rec[Columns[5]] == row[5];
    assert rec[Columns[6]] == row[6] && rec[Columns[7]] == row[7];
    assert rec[Columns[8]] == row[8] && rec[Columns[9]] == row[9];
    assert rec[Columns[10]] == row[10];
  }

  // ---------------------------------------------------------------------
  // Lemmas about a submission
  // ---------------------------------------------------------------------

  /** The error names the first required field, in reading order, that the
      form lacks. */
  lemma AdmitReportsFirstMissing(request: Request, sanitize: string -> string, i: nat)
    requires i < |RequiredFields|
    requires !Present(request.form, RequiredFields[i])
    requires forall j :: 0 <= j < i ==> Present(request.form, RequiredFields[j])
    ensures Admit(request, sanitize) == Err(MissingField(RequiredFields[i]))
  {
    var form := request.form;
    if i == 0 {
    } else if i == 1 {
      assert Present(form, RequiredFields[0]);
    } else if i == 2 {
      assert Present(form, RequiredFields[0]) && Present(form, RequiredFields[1]);
    } else if i == 3 {
      assert Present(form, RequiredFields[0]) && Present(form, RequiredFields[1]);
      assert Present(form, RequiredFields[2]);
    } else if i == 4 {
      assert Present(form, RequiredFields[0]) && Present(form, RequiredFields[1]);
      assert Present(form, RequiredFields[2]) && Present(form, RequiredFields[3]);
    } else {
      assert Present(form, RequiredFields[0]) && Present(form, RequiredFields[1]);
      assert Present(form, RequiredFields[2]) && Present(form, RequiredFields[3]);
      assert Present(form, RequiredFields[4]);
    }
  }

  /** A submission succeeds in building a row exactly when every required
      field is present. */
  lemma AdmitNeedsEveryField(request: Request, sanitize: string -> string)
    ensures Admit(request, sanitize).Ok? <==>
            forall k :: k in RequiredFields ==> Present(request.form, k)
  {
    NoAbsentFieldIffComplete(request.form);
  }

  /** No required field is absent exactly when all six are present. */
  lemma NoAbsentFieldIffComplete(form: MultiDict<string>)
    ensures FirstAbsentField(form).None? <==>
            forall k :: k in RequiredFields ==> Present(form, k)
  {
    if forall k :: k in RequiredFields ==> Present(form, k) {
      assert Present(form, "name") && Present(form, "guardian-name");
      assert Present(form, "guardian-phone") && Present(form, "dob");
      assert Present(form, "address") && Present(form, "class");
    }
  }

  /** With every required field present, the row holds the form's values,
      the joined subjects, their fee, and a photo path only for a present
      photo whose name passes the filename check. */
  lemma AdmitAcceptsCompleteForm(request: Request, sanitize: string -> string)
    requires forall k :: k in RequiredFields ==> Present(request.form, k)
    ensures Admit(request, sanitize).Ok?
    ensures var a := Admit(request, sanitize).value;
            var form := request.form;
            var selected := GetList(form, "subjects");
            var photo := First(request.files, "photo");
            && Some(a.name) == First(form, "name")
            && Some(a.guardianName) == First(form, "guardian-name")
            && Some(a.guardianPhone) == First(form, "guardian-phone")
            && Some(a.dob) == First(form, "dob")
            && Some(a.address) == First(form, "address")
            && Some(a.className) == First(form, "class")
            && a.studentPhone == First(form, "student-phone").GetOr("")
            && a.subjects == Join(SubjectSeparator, selected)
            && a.fees == CalculateFees(selected)
            && (a.photoPath.Some? <==> photo.Some? && AllowedFile(photo.value.filename))
            && (a.photoPath.Some? ==>
                  a.photoPath.value == JoinPath(UploadFolder, sanitize(photo.value.filename)))
  {
    AdmitNeedsEveryField(request, sanitize);
  }
}
