/**
 * The `/compile` handler's first steps (server.js, lines 100-115): the
 * request body is checked, the source text extracted, and the submitted
 * file name reduced to a safe base name.
 */
module Request {
  import opened Errors
  import opened Text
  import opened PosixPath

  /** A parsed JSON value, as `express.json()` leaves it in `req.body`. */
  datatype JsonValue =
    | JNull
    | JBool(b: bool)
    | JNumber(n: int)
    | JString(s: string)
    | JArray(items: seq<JsonValue>)
    | JObject(fields: map<string, JsonValue>)

  const DefaultFilename := "contract.algo.ts"
  const InvalidBodyMessage := "Invalid request body. Expected JSON with { filename, code }."
  const EmptyCodeMessage := "Field 'code' must be a non-empty string"

  /**
   * What `path.basename` throws for an argument that is not a string. The
   * text Node appends after this sentence, describing the value received,
   * is not part of this model.
   */
  const PathTypeError := JsError("TypeError", "The \"path\" argument must be of type string")

  /** `body.key`; `None` stands for `undefined` (a missing field, or a body that is not an object). */
  function Field(body: Option<JsonValue>, key: string): Option<JsonValue> {
    if body.Some? && body.value.JObject? && key in body.value.fields then Some(body.value.fields[key]) else None
  }

  /** JavaScript truthiness of a value that may be `undefined`. */
  predicate Truthy(v: Option<JsonValue>) {
    match v
    case None => false
    case Some(JNull) => false
    case Some(JBool(b)) => b
    case Some(JNumber(n)) => n != 0
    case Some(JString(s)) => s != ""
    case Some(JArray(_)) => true
    case Some(JObject(_)) => true
  }

  /** `req.body && typeof req.body === "object" && typeof req.body.code === "string"`. */
  predicate HasStringCode(body: Option<JsonValue>) {
    Field(body, "code").Some? && Field(body, "code").value.JString?
  }

  function Code(body: Option<JsonValue>): string
    requires HasStringCode(body)
  {
    Field(body, "code").value.s
  }

  /** An accepted submission: the file name argument (`req.body.filename || "contract.algo.ts"`) and the source text. */
  datatype Submission = Submission(filename: JsonValue, code: string)

  datatype Validation = Accepted(submission: Submission) | Rejected(message: string)

  /**
   * Lines 104-113. A body that is not an object with a string `code` is
   * rejected with the "Invalid request body" message; a `code` that is
   * empty or only whitespace with the "non-empty string" message; anything
   * else is accepted with its `code` unchanged. The file name falls back to
   * the default exactly when the submitted one is falsy.
   */
  function Validate(body: Option<JsonValue>): (v: Validation)
    ensures v.Accepted? <==> HasStringCode(body) && !AllWhitespace(Code(body))
    ensures !HasStringCode(body) ==> v == Rejected(InvalidBodyMessage)
    ensures HasStringCode(body) && AllWhitespace(Code(body)) ==> v == Rejected(EmptyCodeMessage)
    ensures v.Accepted? ==> v.submission.code == Code(body)
    ensures v.Accepted? ==> v.submission.filename
                              == if Truthy(Field(body, "filename")) then Field(body, "filename").value
                                 else JString(DefaultFilename)
  {
    if !HasStringCode(body) then Rejected(InvalidBodyMessage)
    else
      var code := Code(body);
      var filename := if Truthy(Field(body, "filename")) then Field(body, "filename").value else JString(DefaultFilename);
      TrimEmptyIffAllWhitespace(code);
      if Trim(code) == "" then Rejected(EmptyCodeMessage)
      else Accepted(Submission(filename, code))
  }

  lemma DefaultFilenameIsPlain()
    ensures DefaultFilename != "" && NoSlash(DefaultFilename)
  {
  }

  /**
   * Line 115: `path.basename(filename) || "contract.algo.ts"`. A string
   * argument always yields a non-empty name without `/`: its last path
   * component, or the default when that component is empty. Any other
   * value makes `path.basename` throw.
   */
  function SafeFilename(filename: JsonValue): (r: Result<string>)
    ensures r.Ok? <==> filename.JString?
    ensures r.Err? ==> r.error == PathTypeError
    ensures r.Ok? ==> r.value != "" && NoSlash(r.value)
    ensures r.Ok? && AllSlashes(filename.s) ==> r.value == DefaultFilename
    ensures r.Ok? && !AllSlashes(filename.s) ==> exists j: nat :: LastComponentAt(filename.s, r.value, j)
  {
    if filename.JString? then
      BasenameIsLastComponent(filename.s);
      DefaultFilenameIsPlain();
      var b := Basename(filename.s);
      Ok(if b == "" then DefaultFilename else b)
    else Err(PathTypeError)
  }

  /**
   * The saved name is `path.basename(filename)` whenever that is non-empty:
   * any non-empty slash-free piece of the name that is followed only by
   * slashes and preceded by `/` or the start is exactly the result.
   */
  lemma SafeFilenameIsLastComponent(s: string, name: string, j: nat)
    requires LastComponentAt(s, name, j) && name != [] && NoSlash(name)
    ensures SafeFilename(JString(s)) == Ok(name)
  {
    assert s[j] == name[0];
    var r := SafeFilename(JString(s));
    var k: nat :| LastComponentAt(s, r.value, k);
    LastComponentUnique(s, name, j, r.value, k);
  }

  /**
   * The name under which a submission is saved: a path has its directories
   * dropped, `".."` is kept as it is, and a name of slashes only gives the
   * default.
   */
  lemma SafeFilenameExamples(dirs: string, name: string)
    requires NoSlash(name) && name != ""
    ensures SafeFilename(JString(dirs + "/" + name)) == Ok(name)
    ensures SafeFilename(JString("..")) == Ok("..")
    ensures SafeFilename(JString("../../etc/passwd")) == Ok("passwd")
    ensures SafeFilename(JString("/")) == Ok(DefaultFilename)
  {
    BasenameDropsDirectories(dirs, name);
    BasenameKeepsDotNames();
    BasenameOfTraversal();
    assert AllSlashes("/");
  }

  /** A missing or empty `filename` field gives the default name. */
  lemma ValidateDefaultsFilename(code: string)
    requires !AllWhitespace(code)
    ensures Validate(Some(JObject(map["code" := JString(code)])))
            == Accepted(Submission(JString(DefaultFilename), code))
    ensures Validate(Some(JObject(map["code" := JString(code), "filename" := JString("")])))
            == Accepted(Submission(JString(DefaultFilename), code))
  {
    assert "filename" != "code" by {
      assert |"filename"| != |"code"|;
    }
    var missing := Some(JObject(map["code" := JString(code)]));
    assert Field(missing, "code") == Some(JString(code));
    assert Field(missing, "filename") == None;
    var empty := Some(JObject(map["code" := JString(code), "filename" := JString("")]));
    assert Field(empty, "code") == Some(JString(code));
    assert Field(empty, "filename") == Some(JString(""));
  }
}
