/**
 * The diagnostic that `ApiError#extract_error_message` mines from a response
 * body, as a function of the body and of what the two foreign parsers
 * (MultiJson.load, MultiXml.parse) return for it.
 */
module Extraction {
  import opened Wrappers
  import opened ResponseValue
  import RubyArray

  /** The part of an HTTP response the extraction reads: its body text. */
  datatype Response = Response(body: string)

  /** What MultiJson.load does with a body. */
  datatype JsonOutcome =
    | JsonParsed(content: Value)
    | JsonParseError        // MultiJson::ParseError
    | JsonOtherError        // any other exception the parser raises

  /** What MultiXml.parse does with a body. */
  datatype XmlOutcome =
    | XmlParsed(tree: Value)
    | XmlParseError         // MultiXml::ParseError

  /** A Ruby computation that either yields a value or raises (and is rescued later). */
  datatype Outcome<T> = Ok(value: T) | Raised

  const Separator := " - "
  const ErrorPath := ["ErrorResponse", "Error"]
  const CodePath := ["ErrorResponse", "Error", "Code"]
  const MessagePath := ["ErrorResponse", "Error", "Message"]

  /** `arg[:message]` on a top-level value that is a mapping; `MapMessageFields` raises on any other value. */
  function MessageOf(arg: Value): (m: Value)
    ensures m != Nil ==> arg.Hash? && exists i :: 0 <= i < |arg.entries| && arg.entries[i] == ("message", m)
    ensures arg.Hash? ==> forall i :: (0 <= i < |arg.entries| && arg.entries[i].0 == "message" &&
                                       (forall j :: 0 <= j < i ==> arg.entries[j].0 != "message")) ==> m == arg.entries[i].1
    ensures arg.Hash? && (forall i :: 0 <= i < |arg.entries| ==> arg.entries[i].0 != "message") ==> m == Nil
  {
    if arg.Hash? then Lookup(arg.entries, "message") else Nil
  }

  /**
   * `values.map { |arg| arg[:message] }`: raises as soon as one value is not a
   * mapping (`[:message]` on a string, array, number, boolean or nil raises).
   */
  function MapMessageFields(args: seq<Value>): (r: Outcome<seq<Option<Value>>>)
    ensures r.Ok? <==> forall i :: 0 <= i < |args| ==> args[i].Hash?
    ensures r.Ok? ==> |r.value| == |args|
    ensures r.Ok? ==> forall i :: 0 <= i < |args| ==> r.value[i] == NilToNone(MessageOf(args[i]))
  {
    if args == [] then Ok([])
    else if !args[0].Hash? then Raised
    else
      match MapMessageFields(args[1..])
      case Raised => Raised
      case Ok(rest) => Ok([NilToNone(Lookup(args[0].entries, "message"))] + rest)
  }

  /** The top-level values of the parsed document, in document order; `.values` raises on anything but a mapping. */
  function TopLevelValues(content: Value): Outcome<seq<Value>>
  {
    if content.Hash? then Ok(seq(|content.entries|, i requires 0 <= i < |content.entries| => content.entries[i].1))
    else Raised
  }

  /**
   * The whole scan: top-level values, their `message` fields, nils dropped.
   * It succeeds exactly on a mapping of mappings, and then yields the
   * non-nil messages in document order.
   */
  function ScanMessages(content: Value): (r: Outcome<seq<Value>>)
    ensures r.Ok? <==> content.Hash? && forall i :: 0 <= i < |content.entries| ==> content.entries[i].1.Hash?
    ensures r.Ok? ==> r.value == FoundMessages(content.entries)
  {
    match TopLevelValues(content)
    case Raised => Raised
    case Ok(vals) =>
      match MapMessageFields(vals)
      case Raised => Raised
      case Ok(fields) =>
        assert |vals| == |content.entries|;
        assert forall i :: 0 <= i < |vals| ==> vals[i] == content.entries[i].1;
        CompactFieldsAreFound(content.entries);
        assert fields == MessageFields(content.entries);
        Ok(RubyArray.Compact(fields))
  }

  /**
   * The JSON branch: a diagnostic exactly when the document is a mapping of
   * mappings and at least one of them has a non-nil `message`.
   */
  function JsonDiagnostic(content: Value): (r: Option<string>)
    ensures r.Some? <==>
      && content.Hash?
      && (forall i :: 0 <= i < |content.entries| ==> content.entries[i].1.Hash?)
      && (exists i :: 0 <= i < |content.entries| && MessageOf(content.entries[i].1) != Nil)
  {
    match ScanMessages(content)
    case Raised => None
    case Ok(msgs) =>
      FoundMessagesEmpty(content.entries);
      if msgs == [] then None else Some(JoinValues(msgs, Separator))
  }

  /**
   * The XML branch: "Code: Message" when ErrorResponse/Error is present (and truthy).
   * Stated through plain lookups: the tree and its ErrorResponse must be mappings.
   */
  function XmlDiagnostic(tree: Value): (r: Option<string>)
    ensures r.Some? <==>
      && tree.Hash?
      && Lookup(tree.entries, "ErrorResponse").Hash?
      && Truthy(Lookup(Lookup(tree.entries, "ErrorResponse").entries, "Error"))
  {
    GetAppend(tree, ["ErrorResponse"], ["Error"]);
    assert ErrorPath == ["ErrorResponse"] + ["Error"];
    if Truthy(Get(tree, ErrorPath)) then
      Some(ToS(Get(tree, CodePath)) + ": " + ToS(Get(tree, MessagePath)))
    else None
  }

  /**
   * The value `extract_error_message` assigns to `@response_error_msg`, or None
   * when it assigns nothing. A nil response raises on `response.body`, which
   * the bare rescue swallows.
   */
  function Diagnostic(response: Option<Response>, parseJson: string -> JsonOutcome,
                      parseXml: string -> XmlOutcome): (r: Option<string>)
    ensures r.Some? ==> response.Some?
    ensures r.Some? ==>
      || parseJson(response.value.body).JsonParsed?
      || (parseJson(response.value.body) == JsonParseError && parseXml(response.value.body).XmlParsed?)
  {
    match response
    case None => None
    case Some(resp) =>
      match parseJson(resp.body)
      case JsonParsed(content) => JsonDiagnostic(content)
      case JsonOtherError => None
      case JsonParseError =>
        match parseXml(resp.body)
        case XmlParsed(tree) => XmlDiagnostic(tree)
        case XmlParseError => None
  }

  /** `[@message, @response_error_msg].compact.join(' - ')`. */
  function Compose(base: Option<string>, diag: Option<string>): (r: string)
    ensures base.None? && diag.None? ==> r == ""
    ensures base.Some? && diag.None? ==> r == base.value
    ensures base.None? && diag.Some? ==> r == diag.value
    ensures base.Some? && diag.Some? ==> r == base.value + " - " + diag.value
  {
    assert [base, diag][..1] == [base] && [base][..0] == [];
    assert RubyArray.Compact([base]) == if base.Some? then [base.value] else [];
    var present := RubyArray.Compact([base, diag]);
    assert present == (if base.Some? then [base.value] else []) + (if diag.Some? then [diag.value] else []);
    assert base.Some? && diag.Some? ==>
      present == [base.value, diag.value] && present[1..] == [diag.value] &&
      RubyArray.Join(present[1..], Separator) == diag.value &&
      RubyArray.Join(present, Separator) == base.value + Separator + diag.value;
    RubyArray.Join(present, Separator)
  }

  // ---------------------------------------------------------------------------
  // The JSON path

  /** Indices of the top-level entries whose `message` is non-nil, in document order. */
  function MessageIndices(entries: seq<(string, Value)>): (p: seq<nat>)
    ensures forall k :: 0 <= k < |p| ==> p[k] < |entries| && MessageOf(entries[p[k]].1) != Nil
    ensures forall k, l :: 0 <= k < l < |p| ==> p[k] < p[l]
    ensures forall i :: 0 <= i < |entries| && MessageOf(entries[i].1) != Nil ==> i in p
  {
    RubyArray.Positions(seq(|entries|, i requires 0 <= i < |entries| => NilToNone(MessageOf(entries[i].1))))
  }

  /** The non-nil `message` values of the top-level entries, in document order. */
  function FoundMessages(entries: seq<(string, Value)>): seq<Value>
  {
    var p := MessageIndices(entries);
    seq(|p|, k requires 0 <= k < |p| => MessageOf(entries[p[k]].1))
  }

  /** The `message` field of every top-level value, nil as absent. */
  function MessageFields(entries: seq<(string, Value)>): seq<Option<Value>>
  {
    seq(|entries|, i requires 0 <= i < |entries| => NilToNone(MessageOf(entries[i].1)))
  }

  /** Compacting the `message` fields yields exactly the found messages. */
  lemma CompactFieldsAreFound(entries: seq<(string, Value)>)
    ensures RubyArray.Compact(MessageFields(entries)) == FoundMessages(entries)
  {
    var fields := MessageFields(entries);
    var p := MessageIndices(entries);
    assert p == RubyArray.Positions(fields);
    RubyArray.CompactAtPositions(fields);
    var found := RubyArray.Compact(fields);
    forall k | 0 <= k < |p|
      ensures found[k] == MessageOf(entries[p[k]].1)
    {
      assert fields[p[k]] == NilToNone(MessageOf(entries[p[k]].1));
    }
  }

  /** No message is found exactly when every top-level `message` is nil. */
  lemma FoundMessagesEmpty(entries: seq<(string, Value)>)
    ensures FoundMessages(entries) == [] <==> forall i :: 0 <= i < |entries| ==> MessageOf(entries[i].1) == Nil
  {
    var p := MessageIndices(entries);
    if p != [] {
      assert MessageOf(entries[p[0]].1) != Nil;
    }
  }

  /**
   * JSON success path: a mapping of mappings with at least one non-nil message
   * gives those messages, in document order, joined with " - ". XML is not consulted.
   */
  lemma JsonMessagesFound(body: string, entries: seq<(string, Value)>,
                          parseJson: string -> JsonOutcome, parseXml: string -> XmlOutcome)
    requires parseJson(body) == JsonParsed(Hash(entries))
    requires forall i :: 0 <= i < |entries| ==> entries[i].1.Hash?
    requires exists i :: 0 <= i < |entries| && MessageOf(entries[i].1) != Nil
    ensures Diagnostic(Some(Response(body)), parseJson, parseXml) == Some(JoinValues(FoundMessages(entries), Separator))
  {
    var i :| 0 <= i < |entries| && MessageOf(entries[i].1) != Nil;
    assert i in MessageIndices(entries);
    JsonBranch(body, Hash(entries), parseJson, parseXml);
    assert ScanMessages(Hash(entries)) == Ok(FoundMessages(entries));
  }

  /** Two error objects, each with a message: both, in document order. */
  lemma TwoMessagesInOrder(first: string, second: string)
    ensures JsonDiagnostic(Hash([("Errors", Hash([("message", Str(first))])),
                                 ("Other", Hash([("message", Str(second))]))]))
            == Some(first + " - " + second)
  {
    var entries := [("Errors", Hash([("message", Str(first))])), ("Other", Hash([("message", Str(second))]))];
    var vals := [Hash([("message", Str(first))]), Hash([("message", Str(second))])];
    var top := TopLevelValues(Hash(entries));
    assert top.Ok? && |top.value| == 2;
    assert top.value[0] == entries[0].1 && top.value[1] == entries[1].1;
    assert top.value == vals;
    var fields := [Some(Str(first)), Some(Str(second))];
    var mapped := MapMessageFields(vals);
    assert mapped.Ok? && |mapped.value| == 2;
    assert mapped.value[0] == fields[0] && mapped.value[1] == fields[1];
    assert fields[..1] == [Some(Str(first))] && fields[..1][..0] == [];
    assert RubyArray.Compact(fields) == [Str(first), Str(second)];
    var texts := [first, second];
    assert texts == seq(2, i requires 0 <= i < 2 => JoinText([Str(first), Str(second)][i], Separator));
    assert RubyArray.Join(texts, Separator) == first + Separator + RubyArray.Join(texts[1..], Separator);
  }

  /** An empty-string message still counts as found. */
  lemma EmptyMessageCounts(key: string)
    ensures JsonDiagnostic(Hash([(key, Hash([("message", Str(""))]))])) == Some("")
  {
  }

  /**
   * No non-nil message anywhere: nothing is assigned, whatever the XML parser
   * would have made of the body.
   */
  lemma JsonWithoutMessages(body: string, entries: seq<(string, Value)>,
                            parseJson: string -> JsonOutcome, parseXml: string -> XmlOutcome)
    requires parseJson(body) == JsonParsed(Hash(entries))
    requires forall i :: 0 <= i < |entries| ==> MessageOf(entries[i].1) == Nil
    ensures Diagnostic(Some(Response(body)), parseJson, parseXml) == None
  {
  }

  /** One top-level value that is not a mapping discards the messages of all the others. */
  lemma NonMappingValueDiscardsAll(entries: seq<(string, Value)>, j: nat)
    requires j < |entries| && !entries[j].1.Hash?
    ensures ScanMessages(Hash(entries)).Raised?
    ensures JsonDiagnostic(Hash(entries)) == None
  {
    var vals := seq(|entries|, i requires 0 <= i < |entries| => entries[i].1);
    assert !vals[j].Hash?;
  }

  /** Parsed JSON always goes to the JSON branch. */
  lemma JsonBranch(body: string, content: Value, parseJson: string -> JsonOutcome, parseXml: string -> XmlOutcome)
    requires parseJson(body) == JsonParsed(content)
    ensures Diagnostic(Some(Response(body)), parseJson, parseXml) == JsonDiagnostic(content)
  {
  }

  /** A top-level array or scalar yields no diagnostic. */
  lemma NonMappingDocument(content: Value)
    requires !content.Hash?
    ensures JsonDiagnostic(content) == None
  {
  }

  /** A nil response, or a JSON failure other than a parse error, yields no diagnostic. */
  lemma SwallowedFailures(response: Option<Response>, parseJson: string -> JsonOutcome,
                          parseXml: string -> XmlOutcome)
    requires response.None? || parseJson(response.value.body) == JsonOtherError
    ensures Diagnostic(response, parseJson, parseXml) == None
  {
  }

  // ---------------------------------------------------------------------------
  // The XML path

  /** The XML parser is consulted only after a JSON parse error. */
  lemma XmlOnlyAfterJsonParseError(body: string, parseJson: string -> JsonOutcome,
                                   xml1: string -> XmlOutcome, xml2: string -> XmlOutcome)
    requires parseJson(body) != JsonParseError
    ensures Diagnostic(Some(Response(body)), parseJson, xml1) == Diagnostic(Some(Response(body)), parseJson, xml2)
  {
  }

  /** After a JSON parse error the XML branch decides; an XML parse error leaves no diagnostic. */
  lemma XmlFallback(body: string, parseJson: string -> JsonOutcome, parseXml: string -> XmlOutcome)
    requires parseJson(body) == JsonParseError
    ensures parseXml(body) == XmlParseError ==> Diagnostic(Some(Response(body)), parseJson, parseXml) == None
    ensures parseXml(body).XmlParsed? ==>
      Diagnostic(Some(Response(body)), parseJson, parseXml) == XmlDiagnostic(parseXml(body).tree)
  {
  }

  /**
   * The XML success path for every tree: when ErrorResponse/Error is a
   * mapping, the diagnostic is its Code, ": ", then its Message, whatever
   * other keys (Type, RequestId, xmlns, ...) sit beside them and in any order.
   * A missing Code or Message renders as the empty string.
   */
  lemma XmlEnvelopeAnyTree(tree: Value, errorResponse: Value, error: Value)
    requires tree.Hash? && Lookup(tree.entries, "ErrorResponse") == errorResponse
    requires errorResponse.Hash? && Lookup(errorResponse.entries, "Error") == error
    requires error.Hash?
    ensures XmlDiagnostic(tree) ==
      Some(ToS(Lookup(error.entries, "Code")) + ": " + ToS(Lookup(error.entries, "Message")))
    ensures Lookup(error.entries, "Code") == Nil ==>
      XmlDiagnostic(tree) == Some(": " + ToS(Lookup(error.entries, "Message")))
    ensures Lookup(error.entries, "Message") == Nil ==>
      XmlDiagnostic(tree) == Some(ToS(Lookup(error.entries, "Code")) + ": ")
  {
    GetAppend(tree, ErrorPath, ["Code"]);
    GetAppend(tree, ErrorPath, ["Message"]);
    GetAppend(tree, ["ErrorResponse"], ["Error"]);
    assert ErrorPath == ["ErrorResponse"] + ["Error"];
    assert CodePath == ErrorPath + ["Code"];
    assert MessagePath == ErrorPath + ["Message"];
    assert Get(tree, ErrorPath) == error;
    var code, message := ToS(Lookup(error.entries, "Code")), ToS(Lookup(error.entries, "Message"));
    assert Get(tree, CodePath) == Lookup(error.entries, "Code");
    assert Get(tree, MessagePath) == Lookup(error.entries, "Message");
    assert XmlDiagnostic(tree) == Some(code + ": " + message);
    assert ToS(Nil) == "";
    assert Lookup(error.entries, "Code") == Nil ==> code + ": " + message == ": " + message;
    assert Lookup(error.entries, "Message") == Nil ==> code + ": " + message == code + ": ";
  }

  /**
   * An Error that is present and truthy but not a mapping (text, or an array
   * of repeated elements) has no Code or Message under it: the diagnostic is ": ".
   */
  lemma XmlErrorNotMapping(tree: Value, errorResponse: Value, error: Value)
    requires tree.Hash? && Lookup(tree.entries, "ErrorResponse") == errorResponse
    requires errorResponse.Hash? && Lookup(errorResponse.entries, "Error") == error
    requires Truthy(error) && !error.Hash?
    ensures XmlDiagnostic(tree) == Some(": ")
  {
    GetAppend(tree, ErrorPath, ["Code"]);
    GetAppend(tree, ErrorPath, ["Message"]);
    GetAppend(tree, ["ErrorResponse"], ["Error"]);
    assert ErrorPath == ["ErrorResponse"] + ["Error"];
    assert CodePath == ErrorPath + ["Code"];
    assert MessagePath == ErrorPath + ["Message"];
    assert Get(tree, ErrorPath) == error;
    assert Get(error, ["Code"]) == Nil && Get(error, ["Message"]) == Nil;
    assert ToS(Nil) + ": " + ToS(Nil) == ": ";
  }

  /**
   * The converse: no diagnostic when the tree or its ErrorResponse is not a
   * mapping, or when ErrorResponse has no Error, or its Error is nil or false.
   */
  lemma XmlWithoutEnvelope(tree: Value)
    requires
      || !tree.Hash?
      || !Lookup(tree.entries, "ErrorResponse").Hash?
      || Lookup(Lookup(tree.entries, "ErrorResponse").entries, "Error") in {Nil, Bool(false)}
    ensures XmlDiagnostic(tree) == None
  {
  }

  /** The AWS-style envelope ErrorResponse/Error/{Code, Message} renders as "Code: Message". */
  lemma XmlEnvelope(code: string, message: string)
    ensures XmlDiagnostic(Hash([("ErrorResponse", Hash([("Error", Hash([("Code", Str(code)), ("Message", Str(message))]))]))]))
            == Some(code + ": " + message)
  {
    var error := Hash([("Code", Str(code)), ("Message", Str(message))]);
    var errorResponse := Hash([("Error", error)]);
    XmlEnvelopeAnyTree(Hash([("ErrorResponse", errorResponse)]), errorResponse, error);
    assert Lookup(error.entries, "Message") == Lookup(error.entries[1..], "Message");
  }

  /** A missing Code renders as the empty string before the colon. */
  lemma XmlEnvelopeWithoutCode(message: string)
    ensures XmlDiagnostic(Hash([("ErrorResponse", Hash([("Error", Hash([("Message", Str(message))]))]))]))
            == Some(": " + message)
  {
    var error := Hash([("Message", Str(message))]);
    var errorResponse := Hash([("Error", error)]);
    XmlEnvelopeAnyTree(Hash([("ErrorResponse", errorResponse)]), errorResponse, error);
  }

  /** Every diagnostic comes from one of the two branches, as the branch produced it. */
  lemma DiagnosticProvenance(body: string, parseJson: string -> JsonOutcome, parseXml: string -> XmlOutcome)
    requires Diagnostic(Some(Response(body)), parseJson, parseXml).Some?
    ensures parseJson(body).JsonParsed? || (parseJson(body) == JsonParseError && parseXml(body).XmlParsed?)
    ensures parseJson(body).JsonParsed? ==> ScanMessages(parseJson(body).content).Ok?
    ensures parseJson(body) == JsonParseError ==> Truthy(Get(parseXml(body).tree, ErrorPath))
  {
  }

  // ---------------------------------------------------------------------------
  // Message composition

  /** As written, `message` reads `@message`, which error.rb never assigns: a non-empty base message is lost. */
  lemma BaseMessageDropped(msg: string, diag: Option<string>)
    requires msg != ""
    ensures Compose(None, diag) != Compose(Some(msg), diag)
  {
    if diag.Some? {
      assert |Compose(Some(msg), diag)| == |msg| + 3 + |diag.value|;
    }
  }

  /** The rendered message of an API error, with the base message included. */
  lemma ComposeExamples()
    ensures Compose(Some("call failed"), None) == "call failed"
    ensures Compose(Some("call failed"), Some("E1: bad thing")) == "call failed - E1: bad thing"
  {
  }
}
