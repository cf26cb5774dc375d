/** ExceptionHandlingMiddleware: lets a response through untouched, and
    turns an exception thrown further down the pipeline into a status code
    and a JSON error envelope. */
module ExceptionHandling {
  import opened Common

  /** What the middleware needs to know about NotFoundException, whose
      declaration is not part of this model: whether it derives from
      ApplicationException, and the message its constructor builds from the
      entity name and key. */
  datatype NotFoundDeclaration = NotFoundDeclaration(derivesFromApplicationException: bool, message: (string, int) -> string)

  datatype ValidationError = ValidationError(propertyName: string, errorMessage: string)

  /** The two envelope classes: ErrorResponse, and its subclass
      ValidationErrorResponse that adds Errors. */
  datatype ErrorResponse =
    | ErrorResponse(status: string, message: string)
    | ValidationErrorResponse(status: string, message: string, errors: seq<ValidationError>)

  /** The status code, content type and envelope the handler settles on. */
  datatype HandledException = HandledException(statusCode: int, contentType: string, response: ErrorResponse)

  const JsonContentType: string := "application/json"
  const GenericMessage: string := "An error occurred while processing your request."
  const ValidationMessage: string := "One or more validation errors occurred."

  /** The `Errors.Select(...)` projection: one ValidationError per failure,
      in the same order. */
  function ToValidationErrors(failures: seq<ValidationFailure>): (r: seq<ValidationError>)
    ensures |r| == |failures|
    ensures forall i :: 0 <= i < |r| ==>
      r[i].propertyName == failures[i].propertyName && r[i].errorMessage == failures[i].errorMessage
  {
    if failures == [] then []
    else [ValidationError(failures[0].propertyName, failures[0].errorMessage)] + ToValidationErrors(failures[1..])
  }

  /** The message of the exception when the `case ApplicationException`
      pattern matches it, that is when its class is or derives from
      ApplicationException. */
  function ApplicationMessage(e: Exception, notFound: NotFoundDeclaration): (r: Option<string>)
    ensures r.Some? <==> e.ApplicationException? || (e.NotFoundException? && notFound.derivesFromApplicationException)
    ensures e.ApplicationException? ==> r == Some(e.message)
    ensures e.NotFoundException? && r.Some? ==> r.value == notFound.message(e.entityName, e.key)
  {
    match e
    case ApplicationException(message) => Some(message)
    case NotFoundException(entityName, key) =>
      if notFound.derivesFromApplicationException then Some(notFound.message(entityName, key)) else None
    case _ => None
  }

  /** HandleExceptionAsync's decision: the patterns are tried in order, a
      ValidationException first, then an ApplicationException; anything else
      keeps the generic envelope with status 500. */
  function HandleException(e: Exception, notFound: NotFoundDeclaration): (r: HandledException)
    ensures r.contentType == JsonContentType
    ensures r.statusCode == 400 || r.statusCode == 500
    ensures e.ValidationException? ==>
      r == HandledException(400, JsonContentType,
             ValidationErrorResponse("ValidationError", ValidationMessage, ToValidationErrors(e.errors)))
    ensures !e.ValidationException? && ApplicationMessage(e, notFound).Some? ==>
      r == HandledException(400, JsonContentType, ErrorResponse("ApplicationError", ApplicationMessage(e, notFound).value))
    ensures r.statusCode == 500 <==> !e.ValidationException? && ApplicationMessage(e, notFound).None?
    ensures r.statusCode == 500 ==> r.response == ErrorResponse("Error", GenericMessage)
  {
    var response := ErrorResponse("Error", GenericMessage);
    if e.ValidationException? then
      HandledException(400, JsonContentType,
        ValidationErrorResponse("ValidationError", ValidationMessage, ToValidationErrors(e.errors)))
    else if ApplicationMessage(e, notFound).Some? then
      HandledException(400, JsonContentType, ErrorResponse("ApplicationError", ApplicationMessage(e, notFound).value))
    else
      HandledException(500, JsonContentType, response)
  }

  /** A 500 carries nothing of the exception: any two exceptions answered
      with 500 get the same envelope. */
  lemma ServerErrorsIndistinguishable(e1: Exception, e2: Exception, notFound: NotFoundDeclaration)
    requires HandleException(e1, notFound).statusCode == 500
    requires HandleException(e2, notFound).statusCode == 500
    ensures HandleException(e1, notFound) == HandleException(e2, notFound)
  {
  }

  /** A JSON value as the serializer writes it. */
  datatype Json = JString(text: string) | JArray(items: seq<Json>) | JObject(members: seq<(string, Json)>)

  /** The value of the first member with the given name. */
  function Member(members: seq<(string, Json)>, name: string): (r: Option<Json>)
    ensures r.Some? ==> exists i :: 0 <= i < |members| && members[i] == (name, r.value)
    ensures r.None? <==> forall i :: 0 <= i < |members| ==> members[i].0 != name
  {
    if members == [] then None
    else if members[0].0 == name then Some(members[0].1)
    else Member(members[1..], name)
  }

  function ErrorToJson(v: ValidationError): Json {
    JObject([("PropertyName", JString(v.propertyName)), ("ErrorMessage", JString(v.errorMessage))])
  }

  function ErrorsToJson(errors: seq<ValidationError>): (r: seq<Json>)
    ensures |r| == |errors|
    ensures forall i :: 0 <= i < |r| ==> r[i] == ErrorToJson(errors[i])
  {
    if errors == [] then [] else [ErrorToJson(errors[0])] + ErrorsToJson(errors[1..])
  }

  /** `JsonSerializer.Serialize(response)` as written: the type argument is
      inferred from the variable's declared type ErrorResponse, so only the
      properties ErrorResponse declares are written, whatever the object's
      class at run time. Property names keep their PascalCase. */
  function SerializeDeclared(response: ErrorResponse): (j: Json)
    ensures j.JObject? && Member(j.members, "Errors") == None
    ensures Member(j.members, "Status") == Some(JString(response.status))
    ensures Member(j.members, "Message") == Some(JString(response.message))
  {
    JObject([("Status", JString(response.status)), ("Message", JString(response.message))])
  }

  /** The serialization the envelope classes are evidently written for: the
      object's run-time class decides the properties, so a
      ValidationErrorResponse also writes Errors. */
  function SerializeRuntime(response: ErrorResponse): (j: Json)
    ensures j.JObject? && Member(j.members, "Status") == Some(JString(response.status))
    ensures Member(j.members, "Message") == Some(JString(response.message))
    ensures response.ErrorResponse? ==> j == SerializeDeclared(response)
  {
    match response
    case ErrorResponse(status, message) =>
      JObject([("Status", JString(status)), ("Message", JString(message))])
    case ValidationErrorResponse(status, message, errors) =>
      JObject([("Status", JString(status)), ("Message", JString(message)), ("Errors", JArray(ErrorsToJson(errors)))])
  }

  /** How a client reads one entry of Errors back. */
  function ReadError(j: Json): Option<ValidationError> {
    if !j.JObject? then None
    else
      match (Member(j.members, "PropertyName"), Member(j.members, "ErrorMessage"))
      case (Some(JString(p)), Some(JString(m))) => Some(ValidationError(p, m))
      case _ => None
  }

  function ReadErrorList(items: seq<Json>): Option<seq<ValidationError>> {
    if items == [] then Some([])
    else
      match (ReadError(items[0]), ReadErrorList(items[1..]))
      case (Some(v), Some(rest)) => Some([v] + rest)
      case _ => None
  }

  /** How a client reads the Errors of an envelope back. */
  function ReadErrors(j: Json): Option<seq<ValidationError>> {
    if !j.JObject? then None
    else
      match Member(j.members, "Errors")
      case Some(JArray(items)) => ReadErrorList(items)
      case _ => None
  }

  lemma ReadErrorOfError(v: ValidationError)
    ensures ReadError(ErrorToJson(v)) == Some(v)
  {
    var members := ErrorToJson(v).members;
    assert "ErrorMessage"[0] != "PropertyName"[0];
    assert Member(members, "ErrorMessage") == Some(JString(v.errorMessage));
  }

  lemma {:induction false} ReadErrorListOfErrors(errors: seq<ValidationError>)
    ensures ReadErrorList(ErrorsToJson(errors)) == Some(errors)
  {
    if errors != [] {
      ReadErrorOfError(errors[0]);
      ReadErrorListOfErrors(errors[1..]);
      assert ErrorsToJson(errors)[1..] == ErrorsToJson(errors[1..]);
      assert [errors[0]] + errors[1..] == errors;
    }
  }

  /** As written, the failures of a ValidationException never reach the
      client: the body written for a request that failed validation on
      Name is the same as for one with no failures at all, and has no
      Errors. */
  lemma DeclaredSerializationDropsErrors(notFound: NotFoundDeclaration)
    ensures var failed := ValidationException([ValidationFailure("Name", "Name is required.")]);
      var none := ValidationException([]);
      && SerializeDeclared(HandleException(failed, notFound).response)
         == SerializeDeclared(HandleException(none, notFound).response)
      && ReadErrors(SerializeDeclared(HandleException(failed, notFound).response)) == None
  {
  }

  /** With the run-time class serialized, a client reads back exactly the
      errors of the envelope, in order. */
  lemma RuntimeSerializationKeepsErrors(response: ErrorResponse)
    requires response.ValidationErrorResponse?
    ensures ReadErrors(SerializeRuntime(response)) == Some(response.errors)
  {
    var j := SerializeRuntime(response);
    assert "Errors"[0] != "Status"[0] && "Errors"[0] != "Message"[0];
    assert Member(j.members, "Errors") == Member(j.members[1..], "Errors");
    assert Member(j.members[1..], "Errors") == Member(j.members[2..], "Errors");
    assert Member(j.members[2..], "Errors") == Some(JArray(ErrorsToJson(response.errors)));
    ReadErrorListOfErrors(response.errors);
  }

  /** With the corrected serialization, the failures of a
      ValidationException reach the client one for one. */
  lemma ValidationFailuresReachClient(failures: seq<ValidationFailure>, notFound: NotFoundDeclaration)
    ensures ReadErrors(SerializeRuntime(HandleException(ValidationException(failures), notFound).response))
         == Some(ToValidationErrors(failures))
  {
    RuntimeSerializationKeepsErrors(HandleException(ValidationException(failures), notFound).response);
  }

  /** What leaves the middleware: the downstream result untouched, or the
      error it writes. */
  datatype PipelineResult<R> =
    | Passed(result: R)
    | Written(statusCode: int, contentType: string, body: Json)

  /** InvokeAsync as written: run the rest of the pipeline; if it throws,
      write the handled error serialized as its declared type. Logging is
      left out. */
  function Invoke<R>(downstream: Outcome<R>, notFound: NotFoundDeclaration): (r: PipelineResult<R>)
    ensures r.Passed? <==> downstream.Returned?
    ensures r.Passed? ==> r.result == downstream.value
    ensures downstream.Threw? ==>
      var h := HandleException(downstream.exception, notFound);
      r == Written(h.statusCode, JsonContentType, SerializeDeclared(h.response))
    ensures r.Written? ==> ReadErrors(r.body) == None
  {
    match downstream
    case Returned(v) => Passed(v)
    case Threw(e) =>
      var h := HandleException(e, notFound);
      Written(h.statusCode, h.contentType, SerializeDeclared(h.response))
  }

  /** InvokeAsync with the corrected serialization: the same pipeline, but
      the envelope is written as its run-time class, so a validation
      failure's body carries its errors. */
  function InvokeCorrected<R>(downstream: Outcome<R>, notFound: NotFoundDeclaration): (r: PipelineResult<R>)
    ensures r.Passed? <==> downstream.Returned?
    ensures r.Passed? ==> r.result == downstream.value
    ensures downstream.Threw? ==>
      var h := HandleException(downstream.exception, notFound);
      r == Written(h.statusCode, JsonContentType, SerializeRuntime(h.response))
    ensures downstream.Threw? && !downstream.exception.ValidationException? ==> r == Invoke(downstream, notFound)
  {
    match downstream
    case Returned(v) => Passed(v)
    case Threw(e) =>
      var h := HandleException(e, notFound);
      Written(h.statusCode, h.contentType, SerializeRuntime(h.response))
  }

  /** With the corrected serialization, the client reads back the failures
      of a ValidationException that reaches the middleware, one for one. */
  lemma CorrectedPipelineReportsFailures<R>(failures: seq<ValidationFailure>, notFound: NotFoundDeclaration)
    ensures var r := InvokeCorrected<R>(Threw(ValidationException(failures)), notFound);
      r.Written? && r.statusCode == 400 && ReadErrors(r.body) == Some(ToValidationErrors(failures))
  {
    ValidationFailuresReachClient(failures, notFound);
  }
}
