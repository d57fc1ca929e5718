/**
 * Miasma::Error::ApiError (and its subclasses RequestError and
 * AuthenticationError, which inherit its behaviour): an error that keeps the
 * response of the failed request and the diagnostic mined from its body.
 */
module ApiErrors {
  import opened Wrappers
  import opened ResponseValue
  import opened Extraction
  import ErrorHierarchy

  class ApiError {
    /** The class of the instance: ApiError or one of its subclasses. */
    const kind: ErrorHierarchy.ErrorKind
    /** The message handed to StandardError by `super msg`. */
    const msg: string
    /** The instance variable `@message`; nothing in error.rb assigns it. */
    var message: Option<string>
    /** `@response`: the response of the failed request, nil when none was given. */
    var response: Option<Response>
    /** `@response_error_msg`: the diagnostic, nil until extraction finds one. */
    var responseErrorMsg: Option<string>

    /** `initialize(msg, args)`: store the response, then try to extract a diagnostic from it. */
    constructor (kind: ErrorHierarchy.ErrorKind, msg: string, response: Option<Response>,
                 parseJson: string -> JsonOutcome, parseXml: string -> XmlOutcome)
      requires ErrorHierarchy.IsA(kind, ErrorHierarchy.ApiError)
      ensures this.kind == kind && this.msg == msg && this.response == response
      ensures message == None
      ensures responseErrorMsg == Diagnostic(response, parseJson, parseXml)
    {
      this.kind := kind;
      this.msg := msg;
      message := None;
      this.response := response;
      responseErrorMsg := None;
      new;
      var _ := ExtractErrorMessage(response, parseJson, parseXml);
    }

    /**
     * `extract_error_message(response)`: assigns `@response_error_msg` only
     * when a diagnostic is found, touches no other field, and returns the field.
     */
    method ExtractErrorMessage(response: Option<Response>, parseJson: string -> JsonOutcome,
                               parseXml: string -> XmlOutcome) returns (r: Option<string>)
      modifies this`responseErrorMsg
      ensures Diagnostic(response, parseJson, parseXml).Some? ==>
        responseErrorMsg == Diagnostic(response, parseJson, parseXml)
      ensures Diagnostic(response, parseJson, parseXml).None? ==>
        responseErrorMsg == old(responseErrorMsg)
      ensures r == responseErrorMsg
    {
      if response.Some? {
        var body := response.value.body;
        match parseJson(body) {
          case JsonParsed(content) =>
            assert Diagnostic(response, parseJson, parseXml) == JsonDiagnostic(content);
            var msgs := ScanMessages(content);
            if msgs.Ok? && msgs.value != [] {
              responseErrorMsg := Some(JoinValues(msgs.value, Separator));
            }
          case JsonParseError =>
            match parseXml(body) {
              case XmlParsed(tree) =>
                assert Diagnostic(response, parseJson, parseXml) == XmlDiagnostic(tree);
                if Truthy(Get(tree, ErrorPath)) {
                  responseErrorMsg := Some(ToS(Get(tree, CodePath)) + ": " + ToS(Get(tree, MessagePath)));
                }
              case XmlParseError =>
            }
          case JsonOtherError =>
        }
      }
      r := responseErrorMsg;
    }

    /** `message` as written: `[@message, @response_error_msg].compact.join(' - ')`. */
    function MessageAsWritten(): (r: string)
      reads this
      ensures message.None? && responseErrorMsg.None? ==> r == ""
      ensures message.None? && responseErrorMsg.Some? ==> r == responseErrorMsg.value
    {
      Compose(message, responseErrorMsg)
    }

    /** `message` as intended: the constructor's message, then the diagnostic if there is one. */
    function Message(): (r: string)
      reads this
      ensures responseErrorMsg.None? ==> r == msg
      ensures responseErrorMsg.Some? ==> r == msg + " - " + responseErrorMsg.value
    {
      Compose(Some(msg), responseErrorMsg)
    }
  }

  /**
   * A freshly raised API error: as written its `message` is the diagnostic
   * alone (or ""), as intended it starts with the message it was raised with.
   */
  method RaiseApiError(kind: ErrorHierarchy.ErrorKind, msg: string, response: Option<Response>,
                       parseJson: string -> JsonOutcome, parseXml: string -> XmlOutcome)
    returns (written: string, intended: string)
    requires ErrorHierarchy.IsA(kind, ErrorHierarchy.ApiError)
    ensures Diagnostic(response, parseJson, parseXml).None? ==> written == "" && intended == msg
    ensures Diagnostic(response, parseJson, parseXml).Some? ==>
      written == Diagnostic(response, parseJson, parseXml).value &&
      intended == msg + " - " + Diagnostic(response, parseJson, parseXml).value
  {
    var e := new ApiError(kind, msg, response, parseJson, parseXml);
    written := e.MessageAsWritten();
    intended := e.Message();
  }
}
