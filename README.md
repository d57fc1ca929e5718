# Miasma API errors: a Dafny model

This project models `lib/miasma/error.rb` of Miasma, a Ruby client for
remote cloud APIs. The file does two things:

- It declares the library's error classes as a tree rooted at `Miasma::Error`. A
  `rescue` clause catches an error when the error's class is-a the rescued class.
- It defines `ApiError`. Its constructor keeps the HTTP response of the failed
  request and mines a diagnostic from the response body. It reads the body as JSON
  first. It falls back to XML only when the JSON parser reports a parse error.
  `message` is meant to join the base message and that diagnostic with `" - "`.
  As written it reads `@message`, which error.rb never sets, so only the
  diagnostic appears (see "## Findings").

Modules:

- `ErrorHierarchy` (`error_hierarchy.dfy`): the class tree as a closed datatype.
  It has a parent function, the is-a relation and the ancestor chain.
- `RubyArray` (`ruby_array.dfy`): `Array#compact` and `Array#join`, with their laws.
- `ResponseValue` (`response_value.dfy`): the value tree the parsers return after
  `to_smash`. It covers key lookup, `get` along a path, Ruby truthiness and `to_s`.
- `Extraction` (`extraction.dfy`): the diagnostic as a pure function of the response
  and of what the two parsers return. It also holds the message composition and the
  lemmas for each path.
- `ApiErrors` (`api_errors.dfy`): the `ApiError` class. Its fields are `@message`,
  `@response` and `@response_error_msg`. It has the constructor, the
  `ExtractErrorMessage` method that assigns the field only on success, and both
  renderings of `message`.
- `Wrappers` (`wrappers.dfy`): `Option`, standing for a Ruby value that may be nil.

The two foreign parsers, `MultiJson.load` and `MultiXml.parse`, are parameters of
type `string -> JsonOutcome` and `string -> XmlOutcome`. A JSON outcome is a parsed
tree, a parse error, or another error. An XML outcome is a parsed tree or a parse
error. Because the XML parser is a parameter, "XML is not attempted" can be stated:
the diagnostic does not depend on that parameter.

## Model

Three functions are direct definitions of Ruby built-ins and so have no row:
`ResponseValue.Truthy` (Ruby truthiness: only nil and false are false),
`ResponseValue.ToS` (`to_s` in string interpolation) and
`Extraction.TopLevelValues` (`Hash#values`, which raises on anything else).
Their meaning is stated by the contracts that use them: `Extraction.XmlDiagnostic`
and `Extraction.XmlWithoutEnvelope` for the truthiness test at line 57,
`Extraction.XmlEnvelopeAnyTree` for a nil Code or Message rendering as "", and
`Extraction.ScanMessages` for `.values` raising on a non-mapping. `ResponseValue.NilToNone`
is the nil-to-None helper that `compact` works on.

| member | source | states |
|---|---|---|
| `ErrorHierarchy.Parent` | lib/miasma/error.rb:5-86 | each class's superclass in the tree sits exactly one level higher; only Error has none |
| `ErrorHierarchy.Ancestors` | lib/miasma/error.rb:5-86 | the chain starts at the class itself, ends at Error, and each step goes to the parent |
| `ErrorHierarchy.AncestorsAreIsA` | lib/miasma/error.rb:5-86 | a class appears in the ancestor chain of k exactly when k is-a that class |
| `ErrorHierarchy.IsA` | lib/miasma/error.rb:5-86 | the is-a relation that `rescue` matches on: a proper ancestor sits strictly higher in the tree, and every class is-a Error (line 5) |
| `ErrorHierarchy.IsAReflexive` | lib/miasma/error.rb:5-86 | every class is-a itself |
| `ErrorHierarchy.IsATransitive` | lib/miasma/error.rb:5-86 | is-a is transitive |
| `ErrorHierarchy.IsAAntisymmetric` | lib/miasma/error.rb:5-86 | two distinct classes are never each other's ancestor |
| `ErrorHierarchy.ApiFamily` | lib/miasma/error.rb:17-76 | a class is-a ApiError if and only if it is ApiError, RequestError or AuthenticationError |
| `ErrorHierarchy.OrchestrationFamily` | lib/miasma/error.rb:79-83 | a class is-a OrchestrationError if and only if it is OrchestrationError or InvalidTemplate |
| `ErrorHierarchy.LeafFamilies` | lib/miasma/error.rb:71-86 | a `rescue` of RequestError, AuthenticationError, InvalidTemplate or ImmutableError catches that class and no other |
| `ErrorHierarchy.CatchSites` | lib/miasma/error.rb:71-86 | RequestError and AuthenticationError are ApiErrors and Errors; InvalidTemplate is an OrchestrationError and an Error but not an ApiError; ImmutableError is-a only itself and Error |
| `RubyArray.Compact` | lib/miasma/error.rb:50 | every kept element was a non-nil entry, and every non-nil entry is kept |
| `RubyArray.Positions` | lib/miasma/error.rb:50 | the indices of the non-nil entries, strictly increasing, covering every non-nil entry |
| `RubyArray.CompactAtPositions` | lib/miasma/error.rb:50 | the k-th compacted element is the entry at the k-th non-nil index, so order is kept |
| `RubyArray.CompactAppend` | lib/miasma/error.rb:50 | compacting a concatenation is the concatenation of the compacted parts |
| `RubyArray.CompactEmpty` | lib/miasma/error.rb:50-51 | the compacted array is empty exactly when every entry is nil |
| `RubyArray.Join` | lib/miasma/error.rb:52 | the join starts with the first part, and with the first part and a separator when there are two or more parts |
| `RubyArray.JoinAppend` | lib/miasma/error.rb:52 | joining two non-empty lists puts exactly one separator between their joins |
| `RubyArray.JoinLength` | lib/miasma/error.rb:52 | the join's length is the parts' total length plus one separator between each pair of neighbours |
| `ResponseValue.Lookup` | lib/miasma/error.rb:49 | a present key yields the value stored at its first occurrence; an absent key gives nil; a non-nil result is stored under the key |
| `ResponseValue.Get` | lib/miasma/error.rb:57-58 | an empty path gives the value itself; a one-key path on a mapping is a lookup; a step from a value that is not a mapping gives nil |
| `ResponseValue.GetAppend` | lib/miasma/error.rb:57-58 | walking a path in two pieces gives the same value as walking it at once |
| `ResponseValue.JoinText` | lib/miasma/error.rb:52 | what one element contributes to a join: a non-array its `to_s` text, an empty array "", a nested array starting with its first string; an array of strings is `Join` of those strings |
| `ResponseValue.JoinValues` | lib/miasma/error.rb:52 | a join of string messages is `Join` of those strings with the separator; a join whose first message is a string starts with it |
| `Extraction.MessageOf` | lib/miasma/error.rb:49 | a non-nil `arg[:message]` comes from a mapping that stores it under "message"; on a mapping it is the value at the first "message" key, and nil when there is none |
| `Extraction.MapMessageFields` | lib/miasma/error.rb:48-50 | the map succeeds if and only if every top-level value is a mapping; it then yields one entry per value, that value's `message` field |
| `Extraction.MessageIndices` | lib/miasma/error.rb:48-50 | the indices of the top-level entries with a non-nil `message`, in document order, with none missed |
| `Extraction.CompactFieldsAreFound` | lib/miasma/error.rb:48-50 | compacting the top-level `message` fields yields exactly the non-nil messages in document order |
| `Extraction.FoundMessagesEmpty` | lib/miasma/error.rb:50-51 | no message is found exactly when every top-level `message` is nil |
| `Extraction.ScanMessages` | lib/miasma/error.rb:47-50 | the scan succeeds exactly on a mapping of mappings, and then yields the non-nil `message` values in document order |
| `Extraction.JsonDiagnostic` | lib/miasma/error.rb:47-53 | the JSON branch assigns exactly when the document is a mapping of mappings with at least one non-nil `message` |
| `Extraction.XmlDiagnostic` | lib/miasma/error.rb:56-59 | the XML branch assigns exactly when the tree and its ErrorResponse are mappings and ErrorResponse's Error is neither nil, absent nor false |
| `Extraction.Diagnostic` | lib/miasma/error.rb:44-66 | a diagnostic needs a response, and comes from parsed JSON or, after a JSON parse error, from a parsed XML tree |
| `Extraction.JsonBranch` | lib/miasma/error.rb:46-53 | a body the JSON parser accepts is handled by the JSON branch alone |
| `Extraction.JsonMessagesFound` | lib/miasma/error.rb:47-52 | a JSON mapping of mappings with at least one non-nil message yields those messages, in document order, joined with " - ", whatever the XML parser would do |
| `Extraction.TwoMessagesInOrder` | lib/miasma/error.rb:47-52 | two top-level errors with messages a and b give "a - b" |
| `Extraction.EmptyMessageCounts` | lib/miasma/error.rb:51-52 | an empty-string message still counts as found and gives "" |
| `Extraction.JsonWithoutMessages` | lib/miasma/error.rb:47-54 | parsed JSON without a non-nil message assigns nothing, whatever the XML parser would do |
| `Extraction.NonMappingValueDiscardsAll` | lib/miasma/error.rb:47-64 | one top-level value that is not a mapping makes the scan raise, so messages found in other values are discarded |
| `Extraction.NonMappingDocument` | lib/miasma/error.rb:47-64 | a JSON document that is not a mapping (array, scalar, null) gives no diagnostic |
| `Extraction.SwallowedFailures` | lib/miasma/error.rb:44-65 | a nil response, or a JSON failure other than a parse error, gives no diagnostic |
| `Extraction.XmlOnlyAfterJsonParseError` | lib/miasma/error.rb:54-56 | unless the JSON parser reports a parse error, the diagnostic does not depend on the XML parser |
| `Extraction.XmlFallback` | lib/miasma/error.rb:54-61 | after a JSON parse error, an XML parse error gives no diagnostic and a parsed XML tree gives the XML branch's result |
| `Extraction.XmlEnvelopeAnyTree` | lib/miasma/error.rb:57-58 | for every tree whose ErrorResponse/Error is a mapping, the diagnostic is its Code, ": ", its Message, whatever sibling keys there are; a missing Code or Message renders as "" |
| `Extraction.XmlErrorNotMapping` | lib/miasma/error.rb:57-58 | an Error that is present and truthy but not a mapping has no Code or Message, so the diagnostic is ": " |
| `Extraction.XmlWithoutEnvelope` | lib/miasma/error.rb:57 | no diagnostic when the tree or its ErrorResponse is not a mapping, or when Error is absent, nil or false |
| `Extraction.XmlEnvelope` | lib/miasma/error.rb:57-58 | instance: ErrorResponse/Error with Code c and Message m gives "c: m" |
| `Extraction.XmlEnvelopeWithoutCode` | lib/miasma/error.rb:57-58 | instance: an Error with only a Message m gives ": m" |
| `Extraction.DiagnosticProvenance` | lib/miasma/error.rb:44-66 | a diagnostic comes either from a successful JSON scan, or from a parsed XML tree after a JSON parse error in which ErrorResponse/Error is present |
| `Extraction.Compose` | lib/miasma/error.rb:37 | the base alone when there is no diagnostic; the diagnostic alone when there is no base; "base - diag" when both are present; "" when both are nil |
| `Extraction.BaseMessageDropped` | lib/miasma/error.rb:37 | leaving the base out (nil `@message`) changes the rendering whenever the base is non-empty |
| `Extraction.ComposeExamples` | lib/miasma/error.rb:37 | "call failed" with no diagnostic renders "call failed"; with "E1: bad thing" it renders "call failed - E1: bad thing" |
| `ApiErrors.ApiError.constructor` | lib/miasma/error.rb:29-33 | the instance keeps its class, message and response; `@message` stays nil; `@response_error_msg` is the diagnostic of the response |
| `ApiErrors.ApiError.ExtractErrorMessage` | lib/miasma/error.rb:44-68 | writes only `@response_error_msg`; assigns it the diagnostic when there is one and leaves it unchanged otherwise; returns the field's new value |
| `ApiErrors.ApiError.MessageAsWritten` | lib/miasma/error.rb:36-38 | with `@message` nil, the rendering is the diagnostic alone, or "" when there is none |
| `ApiErrors.ApiError.Message` | lib/miasma/error.rb:36-38 | the constructor's message alone, or that message, " - " and the diagnostic |
| `ApiErrors.RaiseApiError` | lib/miasma/error.rb:29-38 | a freshly raised ApiError renders the diagnostic alone (or "") as written, and "msg" or "msg - diagnostic" as intended |

## Left out

- Parsing itself: `MultiJson.load` and `MultiXml.parse` are parameters. The JSON and XML grammars are not modelled.
- Smash (`to_smash`, `get`) comes from another library and is not part of this model. `get` is a total lookup along a path; a step through a value that is not a mapping gives nil. `[:message]` is a lookup by the string key "message" on mappings only.
- Exceptions raised inside the XML branch other than `MultiXml::ParseError`. The bare `rescue` at line 63 does not catch them, so they escape `extract_error_message`. The model has no such XML outcome.
- A parsed mapping with a repeated key: a Ruby Hash holds each key once, but the `Value` type does not exclude repeats; `Lookup` then reads the first.
- `ResponseValue.ToS`: an array or a mapping used as a message renders as the empty string. Ruby would print its `inspect` form.
- The HTTP response beyond its body text, and the `args` that `Error#initialize` ignores.
- Ruby's exception machinery beyond the is-a relation: `StandardError`, backtraces, `raise`/`rescue` themselves.
- `Miasma::Error#initialize` for the classes outside the ApiError family only passes `msg` to StandardError. The model keeps no instance state for them.

## Findings

| source | as written | input that shows it | evidently intended | confidence | as-written member | corrected member |
|---|---|---|---|---|---|---|
| lib/miasma/error.rb:37 | `message` reads `@message`, which nothing in error.rb assigns (line 13 passes `msg` to StandardError, which does not set that variable), so the base message is dropped | `ApiError.new("call failed", response: r)` with no diagnostic in r renders "" instead of "call failed" | the base message followed by " - " and the diagnostic | medium, not executed; other files of the library are not part of this model and could set `@message` | `ApiErrors.ApiError.MessageAsWritten`, `Extraction.BaseMessageDropped` | `ApiErrors.ApiError.Message` |
