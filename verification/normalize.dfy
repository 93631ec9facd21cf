/** The server's `/register` handler up to the point where it logs: it
    assembles a payload from the parsed body and the upload, reshapes the
    multi-select `skills` and the checkbox group `comm` into arrays, and
    keeps only three facts about the uploaded file. The timestamp comes from
    the clock and is passed in. */
module Normalize {
  import opened Options
  import opened JsText

  /** One value of the parsed body: missing (`undefined`), a string, or an
      array of strings. */
  datatype FieldValue = Absent | Str(s: string) | Arr(items: seq<string>)

  /** JavaScript truthiness: `undefined` and `""` are falsy, every other
      string and every array (even an empty one) is truthy. */
  predicate Truthy(v: FieldValue) {
    match v
    case Absent => false
    case Str(s) => s != []
    case Arr(_) => true
  }

  /** The parsed body: field name to value. */
  type Fields = map<string, FieldValue>

  /** What multer reports about the uploaded file. */
  datatype UploadedFile = UploadedFile(
    fieldname: string,
    originalname: string,
    encoding: string,
    mimetype: string,
    size: nat,
    buffer: seq<bv8>)

  /** The part of the upload that the payload keeps. */
  datatype FileMeta = FileMeta(originalname: string, mimetype: string, sizeBytes: nat)

  datatype Payload = Payload(submittedAt: string, fields: Fields, file: Option<FileMeta>)

  /** `parts.map((s) => s.trim())` */
  function TrimEach(parts: seq<string>): seq<string> {
    seq(|parts|, i requires 0 <= i < |parts| => Trim(parts[i]))
  }

  /** The `skills` rule: a truthy value that is not an array becomes one,
      by splitting on commas and trimming when it is a string holding a
      comma, and by wrapping it otherwise. */
  function NormalizeSkills(v: FieldValue): (r: FieldValue)
    ensures Truthy(v) ==> r.Arr?
    ensures !Truthy(v) || v.Arr? ==> r == v
    ensures v.Str? && Truthy(v) && ',' !in v.s ==> r == Arr([v.s])
  {
    match v
    case Str(s) =>
      if s == [] then v
      else if ',' in s then Arr(TrimEach(Split(s, ',')))
      else Arr([s])
    case _ => v
  }

  /** The `comm` rule: a truthy value that is not an array is wrapped in one. */
  function NormalizeComm(v: FieldValue): (r: FieldValue)
    ensures Truthy(v) ==> r.Arr?
    ensures !Truthy(v) || v.Arr? ==> r == v
    ensures v.Str? && Truthy(v) ==> r == Arr([v.s])
  {
    match v
    case Str(s) => if s == [] then v else Arr([s])
    case _ => v
  }

  /** `if (fields.skills && !Array.isArray(fields.skills)) fields.skills = ...`:
      an entry is rewritten only when the rule changes it. */
  function NormalizeEntry(fields: Fields, key: string, rule: FieldValue -> FieldValue): Fields {
    if key in fields && Truthy(fields[key]) && !fields[key].Arr? then fields[key := rule(fields[key])]
    else fields
  }

  /** Both normalizations, `skills` first and `comm` second. */
  function NormalizeFields(fields: Fields): (r: Fields)
    ensures r.Keys == fields.Keys
    ensures forall k :: k in fields && k != "skills" && k != "comm" ==> r[k] == fields[k]
    ensures "skills" in fields ==> r["skills"] == NormalizeSkills(fields["skills"])
    ensures "comm" in fields ==> r["comm"] == NormalizeComm(fields["comm"])
  {
    NormalizeEntry(NormalizeEntry(fields, "skills", NormalizeSkills), "comm", NormalizeComm)
  }

  /** `{ originalname, mimetype, sizeBytes: size }` */
  function Meta(f: UploadedFile): FileMeta {
    FileMeta(f.originalname, f.mimetype, f.size)
  }

  /** The payload the handler logs. */
  function BuildPayload(submittedAt: string, body: Fields, upload: Option<UploadedFile>): (p: Payload)
    ensures p.submittedAt == submittedAt
    ensures p.fields == NormalizeFields(body)
    ensures p.file.None? <==> upload.None?
    ensures upload.Some? ==>
      p.file.value.originalname == upload.value.originalname
      && p.file.value.mimetype == upload.value.mimetype
      && p.file.value.sizeBytes == upload.value.size
  {
    Payload(
      submittedAt,
      NormalizeFields(body),
      match upload
      case None => None
      case Some(f) => Some(Meta(f)))
  }

  // ------------------------------------------------------------ properties

  /** A `skills` string holding a comma becomes its comma-separated pieces,
      trimmed, in order, empty pieces kept: one more element than there are
      commas. The pieces are described as any separator-free sequence that
      joins back to the string. */
  lemma SkillsCommaSplit(s: string, parts: seq<string>)
    requires ',' in s
    requires |parts| > 0 && Join(parts, ',') == s
    requires forall i :: 0 <= i < |parts| ==> ',' !in parts[i]
    ensures NormalizeSkills(Str(s)).Arr?
    ensures |NormalizeSkills(Str(s)).items| == |parts| == Count(s, ',') + 1
    ensures forall i :: 0 <= i < |parts| ==> NormalizeSkills(Str(s)).items[i] == Trim(parts[i])
  {
    SplitJoin(parts, ',');
  }

  /** The pieces of a comma-split `skills` are already trimmed. */
  lemma SkillsItemsTrimmed(s: string)
    requires ',' in s
    ensures forall t :: t in NormalizeSkills(Str(s)).items ==> Trim(t) == t
  {
    forall t | t in NormalizeSkills(Str(s)).items ensures Trim(t) == t {
      var parts := Split(s, ',');
      var i :| 0 <= i < |parts| && t == Trim(parts[i]);
      TrimIdempotent(parts[i]);
    }
  }

  /** Two or more separator-free pieces joined by commas normalize to those
      pieces, trimmed. */
  lemma SkillsFromParts(s: string, parts: seq<string>)
    requires |parts| > 1 && Join(parts, ',') == s
    requires forall i :: 0 <= i < |parts| ==> ',' !in parts[i]
    ensures NormalizeSkills(Str(s)) == Arr(TrimEach(parts))
  {
    SplitJoin(parts, ',');
    CountZeroIff(s, ',');
  }

  /** `"a, b,c"` is split at its commas and the blank before `b` trimmed. */
  lemma SkillsSplitExample(s: string)
    requires s == "a, b,c"
    ensures NormalizeSkills(Str(s)) == Arr(["a", "b", "c"])
  {
    var parts := ["a", " b", "c"];
    JoinSample(s, parts);
    SkillsFromParts(s, parts);
    TrimEachSample(parts);
  }

  lemma JoinSample(s: string, parts: seq<string>)
    requires s == "a, b,c" && parts == ["a", " b", "c"]
    ensures Join(parts, ',') == s
  {
    assert Join(parts[2..], ',') == "c";
    assert Join(parts[1..], ',') == " b" + [','] + "c";
  }

  lemma TrimEachSample(parts: seq<string>)
    requires parts == ["a", " b", "c"]
    ensures TrimEach(parts) == ["a", "b", "c"]
  {
    TrimOfClean("a");
    TrimStartAt(" b", 1);
    TrimOfClean("b");
    TrimOfClean("c");
    var items := TrimEach(parts);
    assert items[0] == "a" && items[1] == "b" && items[2] == "c";
  }

  /** Two commas in a row leave an empty piece in place. */
  lemma SkillsEmptyPieceExample(s: string)
    requires s == "a,,b"
    ensures NormalizeSkills(Str(s)) == Arr(["a", "", "b"])
  {
    var parts := ["a", "", "b"];
    JoinEmptyPiece(s, parts);
    SkillsFromParts(s, parts);
    TrimEachEmptyPiece(parts);
  }

  lemma JoinEmptyPiece(s: string, parts: seq<string>)
    requires s == "a,,b" && parts == ["a", "", "b"]
    ensures Join(parts, ',') == s
  {
    assert Join(parts[2..], ',') == "b";
    assert Join(parts[1..], ',') == ",b";
  }

  lemma TrimEachEmptyPiece(parts: seq<string>)
    requires parts == ["a", "", "b"]
    ensures TrimEach(parts) == parts
  {
    TrimOfClean("a");
    TrimOfClean("");
    TrimOfClean("b");
    var items := TrimEach(parts);
    assert items[0] == "a" && items[1] == "" && items[2] == "b";
  }

  /** A single value is wrapped, and arrays are kept as they came. */
  lemma WrapExamples()
    ensures NormalizeSkills(Str("a")) == Arr(["a"])
    ensures NormalizeSkills(Arr(["a", "b"])) == Arr(["a", "b"])
    ensures NormalizeComm(Str("yes")) == Arr(["yes"])
    ensures NormalizeComm(Arr(["yes", "no"])) == Arr(["yes", "no"])
  {
  }

  /** Normalizing again changes nothing. */
  lemma NormalizeIdempotent(body: Fields)
    ensures NormalizeFields(NormalizeFields(body)) == NormalizeFields(body)
  {
  }

  /** After normalization a truthy `skills` or `comm` is an array, and a
      falsy one is left exactly as it was: never turned into `[]`. */
  lemma NormalizedShapes(body: Fields)
    ensures "skills" in body && Truthy(body["skills"]) ==> NormalizeFields(body)["skills"].Arr?
    ensures "comm" in body && Truthy(body["comm"]) ==> NormalizeFields(body)["comm"].Arr?
    ensures "skills" in body && !Truthy(body["skills"]) ==> NormalizeFields(body)["skills"] == body["skills"]
    ensures "comm" in body && !Truthy(body["comm"]) ==> NormalizeFields(body)["comm"] == body["comm"]
    ensures "skills" !in body ==> "skills" !in NormalizeFields(body)
  {
  }

  /** The payload keeps no more of the upload than its name, type and size:
      two uploads that agree on those give the same payload, whatever their
      bytes. */
  lemma PayloadDropsFileBytes(at: string, body: Fields, f: UploadedFile, g: UploadedFile)
    requires f.originalname == g.originalname && f.mimetype == g.mimetype && f.size == g.size
    ensures BuildPayload(at, body, Some(f)) == BuildPayload(at, body, Some(g))
  {
  }

  /** A submission with skills `ml,web` and the single channel `email` is
      logged with both as arrays and every other field as sent. */
  lemma EndToEndExample(at: string, body: Fields)
    requires "skills" in body && body["skills"] == Str("ml,web")
    requires "comm" in body && body["comm"] == Str("email")
    ensures BuildPayload(at, body, None).fields["skills"] == Arr(["ml", "web"])
    ensures BuildPayload(at, body, None).fields["comm"] == Arr(["email"])
    ensures BuildPayload(at, body, None).file.None?
  {
    var parts := ["ml", "web"];
    JoinMlWeb(body["skills"].s, parts);
    SkillsFromParts(body["skills"].s, parts);
    TrimEachMlWeb(parts);
  }

  lemma JoinMlWeb(s: string, parts: seq<string>)
    requires s == "ml,web" && parts == ["ml", "web"]
    ensures Join(parts, ',') == s
  {
    assert Join(parts[1..], ',') == "web";
  }

  lemma TrimEachMlWeb(parts: seq<string>)
    requires parts == ["ml", "web"]
    ensures TrimEach(parts) == parts
  {
    TrimOfClean("ml");
    TrimOfClean("web");
    var items := TrimEach(parts);
    assert items[0] == "ml" && items[1] == "web";
  }
}
