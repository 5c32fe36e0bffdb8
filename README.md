# Communibase PHP client: a Dafny model of its request-independent core

This project models the logic of the Communibase API client that does not depend on the
network, and proves what it promises. It covers:

- **Document ids** (`Connector::isIdValid`, `Connector::generateId`, `Tool::dateFromMongoId`).
  A document id is 24 hexadecimal digits. A generated id packs a timestamp, three host bytes, a
  process number and a counter. Reading the timestamp back gives the time the id was made.
- **Reference resolution** (`Connector::getByRef`). A reference names a root document and a path
  of steps. Each step names a field and may select an element of an array by its `_id`.
- **`getByIds`**. It keeps the valid ids, drops duplicates, searches for them, and puts the
  results back in the caller's order.
- **`preParseParams`**. It turns a `fields` list such as `['+a', '-b', 'c']` into the map
  `['a' => 1, 'b' => 0, 'c' => 1]`.
- **Result classification** (`getResult`, `parseResult`, `getLastJsonError`). An answer becomes
  either the decoded array or a `Communibase\Exception`.
- **Local guards**. These are the checks `getById`, `finalize`, `update` and `getResult` make
  before anything is sent.
- **Query building**. `ExpressionBuilder` builds MongoDB-style selector maps. `QueryBuilder`
  accumulates a selector.
- **Query logging**. `DebugStack` keeps a numbered log of requests.
- **The error record**. `Communibase\Exception` holds a message, a code and an errors array.

PHP arrays are ordered maps. The model writes them as sequences of key/value pairs (`Php.Entries`),
with PHP's key cast (`"12"` becomes the integer key 12), `$a[$k] = $v`, `$a[] = $v`, `empty()`
and `(string)`. Where PHP versions differ, the model follows PHP 7.

The HTTP client is a function parameter `Transport` from request to `(status, body)`. So is
`json_decode`/`json_last_error` (`Decoder`), and so is `getById` inside `getByRef` (`Lookup`).
"Refused before any request is sent" is stated as "the outcome is the same for every transport
and decoder".

The code is imperative in places. Those parts are methods with loops, and each is proved equal to
a specification function:

- `References.GetByRef` replaces the container step by step.
- `Connector.GetByIds` fills the flipped id list one result at a time.
- `Params.PreParseParams` builds the new field map pair by pair.
- `IdCodec.IdGenerator.GenerateId` appends hex digits in a loop and bumps the static counter.
- `Query.ExpressionBuilder.Comparison` fills the selector field by field.

`QueryBuilder` and `DebugStack` are classes whose methods update their fields.

Where the code and its documentation disagree, the model follows the code:

- `generateId` writes the process number as the constant `pack('n', 1)`, not the real process
  id (`src/Communibase/Connector.php:673`).
- The counter starts at 0, not at a random or process-start value
  (`src/Communibase/Connector.php:669`).
- The three "machine" bytes are the character codes of the first three characters of the md5
  text of the host name. They are not the first three bytes of the digest
  (`src/Communibase/Connector.php:672`).
- The id pattern in `isIdValid` has no `D` modifier, so it also accepts a valid id followed by one
  newline. This one is treated as a defect (see Findings): `IdCodec.IsIdValidAsWritten` models the
  check as written, and `getById` and `getByIds` use the corrected 24-digit check
  (`Connector.NewlineIdPassesWrittenGuards` states where the two differ).
- `DebugStack` stores the difference of two `microtime(true)` readings in `executionMS`, which is
  seconds, not milliseconds (`src/Communibase/Logging/DebugStack.php:59`). The model keeps the
  difference as it is.

## Model

| member | source | states |
|---|---|---|
| Php.Set | src/Communibase/Connector.php:577-588 | `$a[$k] = $v` makes `k` read `v`. Every other key reads as before. An existing key keeps its position, and a new key goes at the end. Keys stay unique. |
| Php.Append | src/Communibase/Query/QueryBuilder.php:37 | `$a[] = $v` stores `v` at one past the largest integer key and nothing else changes. The list of values grows by `v`. |
| Php.NextIndex | src/Communibase/Query/QueryBuilder.php:37 | The index `$a[]` uses is larger than every integer key present. |
| Php.NatToDecimal | src/Communibase/Connector.php:583 | The decimal text of a number has no leading zero (except "0") and reads back as that number. |
| Php.KeyOfIntToDecimal | src/Communibase/Connector.php:583-588 | An integer in range, written out and used as an array key, gives back the integer key. |
| Php.OffsetKey | src/Communibase/Query/ExpressionBuilder.php:45 | A value used as an array offset has a key exactly when it is not an array. |
| Errors.ConstructorKeepsFields | src/Communibase/Exception.php:50-60 | The constructor keeps the message and the code, and `getErrors` returns the errors given. The code defaults to 0 and the errors to the empty array. |
| Errors.GivenErrorsAreReturned | test/Communibase/ExceptionTest.php:15-21 | `new Exception('message', 0, null, ['test'])` has that message, code 0, and errors `['test']`. |
| IdCodec.IsIdValidExactly | src/Communibase/Connector.php:644-655 | An id is valid exactly when it has 24 characters, all hexadecimal digits of either case. |
| IdCodec.IdValidityExamples | test/Communibase/ConnectorTest.php:47-69 | The test vectors: the listed 24-digit ids are accepted. A valid id followed by `((',.`, "123c", "t" and "" are refused. |
| IdCodec.TrailingNewlineAccepted | src/Communibase/Connector.php:650 | The pattern as written accepts a valid id followed by "\n", which has 25 characters. |
| IdCodec.AsWrittenAddsOnlyTrailingNewline | src/Communibase/Connector.php:650 | The pattern as written accepts exactly the valid ids and the valid ids followed by one "\n". |
| IdCodec.ValidIdIsStringKey | src/Communibase/Connector.php:204 | A valid id used as an array key stays a string key. `array_flip` never turns it into an integer. |
| IdCodec.Pack | src/Communibase/Connector.php:671 | `pack('N', ...)` gives exactly `n` bytes. |
| IdCodec.PackValue | src/Communibase/Connector.php:671 | Packing into `n` bytes big-endian keeps exactly the value modulo 256^n. |
| IdCodec.PackTail | src/Communibase/Connector.php:674 | `substr(pack('N', $inc), 1, 3)` is the three-byte packing of the counter. |
| IdCodec.LowerHex | src/Communibase/Connector.php:678-682 | The hex text of bytes has two lower-case hexadecimal digits per byte. |
| IdCodec.ToLower | src/Communibase/Connector.php:682 | `strtolower` keeps the length and lower-cases each ASCII letter. |
| IdCodec.ToLowerUpperHex | src/Communibase/Connector.php:678-682 | Lower-casing the `%02X` rendering gives the lower-case rendering. |
| IdCodec.LowerHexAppend | src/Communibase/Connector.php:678-680 | The hex text of concatenated bytes is the concatenation of their hex texts. |
| IdCodec.IdGenerator.constructor | src/Communibase/Connector.php:669 | The static counter starts at 0. |
| IdCodec.IdGenerator.GenerateId | src/Communibase/Connector.php:667-683 | The id is the lower-case hex text of the 12 bytes: timestamp, machine bytes, process number 1 and the low three bytes of the counter. The counter goes up by one. |
| IdCodec.GeneratedIdLayout | src/Communibase/Connector.php:667-683 | A generated id has 24 lower-case hexadecimal digits, so it is valid. Digits 0-7 are the packed time, 8-13 the machine bytes, 14-17 "0001" and 18-23 the low 24 bits of the counter. |
| IdCodec.PidDigits | src/Communibase/Connector.php:673 | `pack('n', 1)` renders as "0001". |
| Tool.HexDigitValue | src/Communibase/Tool.php:19 | A hexadecimal digit has a value below 16. |
| Tool.HexDecBound | src/Communibase/Tool.php:19 | `hexdec` of `n` characters is below 16^n. |
| Tool.DateFromMongoId | src/Communibase/Tool.php:18-20 | The creation time is below 2^32 seconds. |
| Tool.DateIgnoresSuffix | src/Communibase/Tool.php:19 | Characters after the eighth do not change the date. |
| Tool.DateOfLongId | src/Communibase/Tool.php:19 | The date is the hexadecimal value of the first eight characters. |
| Tool.HexDecLowerHex | src/Communibase/Tool.php:19 | Reading back the hex text of bytes gives their big-endian value. |
| Tool.HexDecIgnoresCase | src/Communibase/Tool.php:19 | Upper- and lower-case digits give the same value. |
| Tool.CreationTimeOfGeneratedId | src/Communibase/Connector.php:671 | The date read from a generated id is its `time()` modulo 2^32, and is exactly that time when it fits in 32 bits. |
| Tool.CounterOfGeneratedId | src/Communibase/Connector.php:674 | Digits 18-23 of a generated id read back as the counter modulo 2^24. |
| Tool.GeneratedIdsDistinct | src/Communibase/Connector.php:667-683 | Two ids generated in the same second on the same host are equal exactly when their counters agree modulo 2^24. |
| Params.FieldEntry | src/Communibase/Connector.php:577-590 | A numeric index always gives a modifier of 0 or 1. The pair is dropped exactly when a numeric index holds an array. |
| Params.NormalizeFields | src/Communibase/Connector.php:575-591 | The new `fields` map has unique keys. |
| Params.PreParseParams | src/Communibase/Connector.php:568-593 | The loop computes `preParseParamsSpec`. |
| Params.UnchangedWithoutFieldList | src/Communibase/Connector.php:570-572 | Without a `fields` array the parameters come back unchanged. |
| Params.OnlyFieldsChange | src/Communibase/Connector.php:591-592 | With a `fields` array only that entry is replaced, in place, by the normalised map. Every other parameter is untouched. |
| Params.LastWrite | src/Communibase/Connector.php:575-590 | A key has a value exactly when some pair of the list writes it. |
| Params.NormalizedValueIsLastWrite | src/Communibase/Connector.php:575-590 | The normalised map holds, for each key, the value of the last pair that writes it. |
| Params.LastWriteWins | src/Communibase/Connector.php:575-590 | A pair that no later pair overrides decides its key. |
| Params.ListGivesModifiers | src/Communibase/Connector.php:577-587 | From a plain list every value of the map is 0 or 1. |
| Params.IntegerFieldModifiers | src/Communibase/Connector.php:578-587 | At a numeric index, an integer field n >= 0 gives the integer key n => 1. A negative one gives the key -n => 0, because its text starts with '-'. `PHP_INT_MIN` gives the string key of its digits => 0. |
| Params.StringFieldModifiers | src/Communibase/Connector.php:578-587 | At a numeric index, '+x' gives x => 1, '-x' gives x => 0 and an unprefixed 'x' gives x => 1. |
| Params.NamedFieldCopied | src/Communibase/Connector.php:588-589 | A pair with a non-numeric key is copied as it is. |
| Params.ModifierListExample | src/Communibase/Connector.php:568-593 | `['+a', '-b', 'c']` becomes `['a' => 1, 'b' => 0, 'c' => 1]`. |
| Results.LastJsonError | src/Communibase/Connector.php:623-635 | The reason is one of the five fixed texts for codes 1-5, and "Empty response received" exactly for any other code. |
| Results.ParseResult | src/Communibase/Connector.php:605-614 | The result is the decoded array exactly when the body decodes to an array. Otherwise the exception's code is the HTTP status and it carries no errors. |
| Results.ParseFailureMessage | src/Communibase/Connector.php:610-612 | The message of a failed parse is the reason in double quotes, then " in ", then the body. |
| Results.MessageArgument | src/Communibase/Connector.php:553-557 | The message argument is refused exactly when it is an array. |
| Results.CodeArgument | src/Communibase/Connector.php:553-557 | An integer code is kept and an array is refused. |
| Results.ErrorsArgument | src/Communibase/Connector.php:553-557 | A falsy `errors` becomes the empty array and an array is kept. Any other value is refused. |
| Results.RemoteException | src/Communibase/Connector.php:551-558 | The body of an error answer becomes an exception, or the constructor refuses a mistyped field. |
| Results.RemoteExceptionKeepsBody | src/Communibase/Connector.php:551-558 | A well-formed error body gives an exception with its message, its code and its errors, which default to `[]`. |
| Results.RemoteExceptionDefaults | src/Communibase/Connector.php:551-558 | A body without message and code still gives an exception, with message "" and code 0. |
| Results.RequestFor | src/Communibase/Connector.php:537-545 | The JSON body is sent exactly when the data is non-empty. |
| Results.GetResult | src/Communibase/Connector.php:531-561 | A path starting with ".json" is refused. Otherwise the result is the decoded array exactly when the status is 200 and the body decodes to an array. An undecodable body raises with the status as code, and a non-200 answer raises the exception its body describes. |
| Results.MissingEntityTypeSendsNothing | src/Communibase/Connector.php:533-535 | A path without an entity type is refused whatever the transport and the decoder do. |
| Results.GetResultFailures | src/Communibase/Connector.php:531-561 | Every failure is the missing entity type, an undecodable body, or the error of a non-200 answer. |
| References.FirstWithId | src/Communibase/Connector.php:168-174 | The selected element is the first one whose `_id` is the object id. None is selected exactly when no element has it. |
| References.GetByRef | src/Communibase/Connector.php:138-177 | The loop computes `getByRefSpec`. |
| References.WalkComposes | src/Communibase/Connector.php:155-176 | Walking `p + q` is walking `p` and then walking `q` from where `p` ended. The first failure stops the walk. |
| References.FieldPathIsNestedLookup | src/Communibase/Connector.php:156-160 | Without object ids the result is the nested field lookup when every field is present, and "Could not find the path in document" otherwise. |
| References.StepOutcomes | src/Communibase/Connector.php:157-174 | One step fails with "Could not find the path in document" exactly when the field is missing. It fails with "Invalid value for path in document" exactly when a selecting step finds no array. It fails with "Empty result of reference" exactly when no element of that array carries the object id. A successful selecting step gives the first element that carries it. |
| References.WalkFailures | src/Communibase/Connector.php:155-176 | A walk fails only with one of the three path messages. |
| References.GetByRefFailures | src/Communibase/Connector.php:138-177 | Every failure is the invalid-argument error, one of the four document errors, or the lookup's own error. |
| References.InvalidArgumentOnlyForEmptyRef | src/Communibase/Connector.php:140-142 | The invalid-argument error comes exactly when both the entity type and the path are empty. |
| References.NoLookupForParent | src/Communibase/Connector.php:145-150 | When the type mentions "parent", or the parent already is the referenced document, the lookup is not consulted. |
| References.LookupOtherwise | src/Communibase/Connector.php:145-153 | Otherwise the lookup's failure is the result. An empty document is refused, and a non-empty one is walked. |
| References.StubSinglePathToAttribute | test/Communibase/Connector/getByRefTest.php:26-41 | The test's single-step path gives "value". |
| References.StubMultiplePathToAttribute | test/Communibase/Connector/getByRefTest.php:45-61 | The test's two-step path gives "value". |
| References.StubMultiplePathToAttributeDepth | test/Communibase/Connector/getByRefTest.php:67-86 | The test's three-step path gives "value". |
| References.StubSinglePathToArrayObject | test/Communibase/Connector/getByRefTest.php:92-108 | Selecting by `_id` gives the element `['_id' => 'value']`. |
| References.StubMultiplePathToArrayObject | test/Communibase/Connector/getByRefTest.php:112-131 | A field step and then a selecting step give the element `['_id' => 'value']`. |
| Connector.GetByIdRejectsLocally | src/Communibase/Connector.php:113-119 | An empty id fails with "Id is empty" and a malformed one with the invalid-id message. Both are refused whatever the transport does. |
| Connector.NewlineIdPassesWrittenGuards | src/Communibase/Connector.php:113-119 | For every valid id, the id followed by "\n" is not empty and passes the check as written, so the source sends it. The model's `GetById` refuses it with the invalid-id message, and its `ValidIds` drops it. |
| Connector.GetByIdSendsGet | src/Communibase/Connector.php:121-123 | A valid id is fetched with a GET on `<type>.json/crud/<id>`, or on `<type>.json/history/<id>/<version>`. |
| Connector.GetByIdNeedsEntityType | src/Communibase/Connector.php:533-535 | `getById` without an entity type is refused by `getResult`. |
| Connector.FinalizeOnlyInvoices | src/Communibase/Connector.php:364-366 | Any type other than "Invoice" fails with "Cannot call finalize on <type>", whatever the transport does. |
| Connector.FinalizeInvoice | src/Communibase/Connector.php:368 | An invoice is finalised with one POST on `Invoice.json/finalize/<id>`, with an empty query and no JSON body. The outcome is what `getResult` makes of the transport's answer to that request. |
| Connector.UpdateChoosesVerb | src/Communibase/Connector.php:340-346 | A PUT on `<type>.json/crud/<id>` is sent exactly when `_id` is non-empty. Otherwise a POST on `<type>.json/crud/` is sent. |
| Php.Column | src/Communibase/Connector.php:244 | `array_column` returns at most one value per row. |
| Php.ColumnOfRow | src/Communibase/Connector.php:244 | A single row gives its value under the key when it is an array that has the key, and nothing otherwise. |
| Php.ColumnAppend | src/Communibase/Connector.php:244 | The column of two runs of rows is the column of the first followed by the column of the second, so values come back in row order. |
| Php.ColumnOfKeyedRows | src/Communibase/Connector.php:244 | When every row has the key, there is one value per row, row by row. |
| Php.ColumnMembers | src/Communibase/Connector.php:244 | A value is in the column exactly when some row has the key with that value. |
| Php.ColumnHead | src/Communibase/Connector.php:244 | The column is empty exactly when no row has the key. Otherwise it starts with the value of the first row that has the key. |
| Connector.GetIdsAsksForIds | src/Communibase/Connector.php:242 | The `getIds` query asks for the field `_id` and keeps every other parameter. |
| Connector.GetIdIsFirstId | src/Communibase/Connector.php:257-263 | `getId` fails exactly when the search fails. Otherwise it is the `_id` of the first result that has one, and null when no result has one. |
| Connector.ValidIds | src/Communibase/Connector.php:192 | The kept ids are all valid and pairwise distinct. They are exactly the valid ids of the input. |
| Connector.ValidIdsKeepFirstOccurrenceOrder | src/Communibase/Connector.php:192 | The kept ids are in the order of their first occurrences in the input. |
| Connector.FirstIndex | src/Communibase/Connector.php:192 | The first position holding `x`. |
| Connector.Flip | src/Communibase/Connector.php:204 | `array_flip` maps each id to its position. |
| Connector.Fill | src/Communibase/Connector.php:205-207 | Storing results under their `_id` keeps the keys unique. |
| Connector.NonEmptyArraysMembers | src/Communibase/Connector.php:208-210 | The filter keeps only non-empty arrays of its input. |
| Connector.GetByIds | src/Communibase/Connector.php:190-212 | The loop computes `getByIdsSpec`. |
| Connector.FillFlipped | src/Communibase/Connector.php:204-207 | Starting from the flipped ids, each result is stored under its `_id`, in result order. The outcome equals `Fill(Flip(valid), Values(results))`, whose shape `ReorderedShape` describes. |
| Connector.GetByIdsShortCircuit | src/Communibase/Connector.php:194-196 | With no entity type, or no valid id, the result is empty and nothing is searched. |
| Connector.GetByIdsSortedKeepsSearchOrder | src/Communibase/Connector.php:198-202 | With a non-empty `sort` the search result is returned as it is. |
| Connector.LastFor | src/Communibase/Connector.php:205-207 | The reference reading of a slot: the last result stored under a key, or none when no result carries it. |
| Connector.FillGet | src/Communibase/Connector.php:205-207 | After the loop a key reads its last result, or its old value when no result carries it. |
| Connector.FillKeepsPositions | src/Communibase/Connector.php:204-207 | The loop keeps the flipped ids at their positions and adds new keys after them. |
| Connector.MatchIsNonEmpty | src/Communibase/Connector.php:208-210 | A result stored under a valid id is a non-empty array, so the filter keeps it. |
| Connector.OrderedPrefix | src/Communibase/Connector.php:204-210 | The slots of the requested ids, filtered, are their matches in the order of the ids. |
| Connector.ExtrasNotRequested | src/Communibase/Connector.php:205-207 | A slot after the requested ids holds a result whose `_id` was not requested. |
| Connector.ReorderedShape | src/Communibase/Connector.php:204-210 | Without `sort`, the output starts with the matched documents in the order of the ids. Each is the last result for its id, and ids without a result are left out. After them come only results whose `_id` was not requested. |
| Connector.OrderedMatchesMembers | src/Communibase/Connector.php:204-210 | A document is in the ordered part exactly when it is the last match of a requested id. |
| Query.FieldList | src/Communibase/Query/ExpressionBuilder.php:40-44 | A scalar field is a one-element list, and an array gives its values. |
| Query.ComparisonMap | src/Communibase/Query/ExpressionBuilder.php:39-48 | The keys of the map are exactly the keys of the fields, each mapped to the comparison. An empty field list gives the empty map. |
| Query.Operator | src/Communibase/Query/ExpressionBuilder.php:84-86 | `[$op => $value]` has exactly one key, the operator, holding the value. |
| Query.Regex | src/Communibase/Query/ExpressionBuilder.php:58-60 | The map has exactly `$regex` holding the value and `$options` holding "i". |
| Query.ExpressionBuilder.OrX | src/Communibase/Query/ExpressionBuilder.php:16-20 | The map has the single key `$or`, holding the values. |
| Query.ExpressionBuilder.AndX | src/Communibase/Query/ExpressionBuilder.php:27-31 | The map has the single key `$and`, holding the values. |
| Query.ExpressionBuilder.Comparison | src/Communibase/Query/ExpressionBuilder.php:39-48 | The loop builds the comparison map. Every field, and only those, is mapped to the comparison. |
| Query.ExpressionBuilder.Eq | src/Communibase/Query/ExpressionBuilder.php:71-73 | Every field maps to the value itself. |
| Query.ExpressionBuilder.Gt | src/Communibase/Query/ExpressionBuilder.php:83-87 | Every field maps to `['$gt' => value]`. |
| Query.ExpressionBuilder.Gte | src/Communibase/Query/ExpressionBuilder.php:97-101 | Every field maps to `['$gte' => value]`. |
| Query.ExpressionBuilder.In | src/Communibase/Query/ExpressionBuilder.php:111-115 | Every field maps to `['$in' => values]`. |
| Query.ExpressionBuilder.Lt | src/Communibase/Query/ExpressionBuilder.php:125-129 | Every field maps to `['$lt' => value]`. |
| Query.ExpressionBuilder.Lte | src/Communibase/Query/ExpressionBuilder.php:139-143 | Every field maps to `['$lte' => value]`. |
| Query.ExpressionBuilder.Ne | src/Communibase/Query/ExpressionBuilder.php:153-157 | Every field maps to `['$ne' => value]`. |
| Query.ExpressionBuilder.Nin | src/Communibase/Query/ExpressionBuilder.php:167-171 | Every field maps to `['$nin' => values]`. |
| Query.ExpressionBuilder.Like | src/Communibase/Query/ExpressionBuilder.php:56-61 | Every field maps to a case-insensitive `$regex` on the value. |
| Query.ScalarFieldIsSingleton | src/Communibase/Query/ExpressionBuilder.php:40-41 | A single field gives the same map as a list holding just that field. |
| Query.MergeInto | src/Communibase/Query/QueryBuilder.php:27 | Merging keeps the keys unique. |
| Query.ArrayMerge | src/Communibase/Query/QueryBuilder.php:27 | `array_merge` gives an array with unique keys. |
| Query.MergeOverwrites | src/Communibase/Query/QueryBuilder.php:27 | A string key of the expression overwrites the query's. Other string keys keep their values. |
| Query.MergeRenumbers | src/Communibase/Query/QueryBuilder.php:27 | The integer-keyed values of both arrays are renumbered 0, 1, 2, ... in order. |
| Query.PushOnto | src/Communibase/Query/QueryBuilder.php:37 | A missing, null or false slot becomes `[v]` and an array slot gets `v` appended. A string slot is an error, and true or an integer is left as it is. Every other key is untouched. |
| Query.PushTwice | src/Communibase/Query/QueryBuilder.php:36-49 | Pushing twice onto a missing slot gives the list of both values in order. |
| Query.QueryBuilder.constructor | src/Communibase/Query/QueryBuilder.php:19 | A fresh builder holds the empty selector and no expression builder. |
| Query.QueryBuilder.Add | src/Communibase/Query/QueryBuilder.php:26-29 | The query becomes `array_merge` of the old query and the expression, and the builder itself is returned. |
| Query.QueryBuilder.AddOr | src/Communibase/Query/QueryBuilder.php:36-39 | The expression is appended to the `$or` list and the builder is returned. A string `$or` is an error and changes nothing. |
| Query.QueryBuilder.AddAnd | src/Communibase/Query/QueryBuilder.php:46-49 | The expression is appended to the `$and` list and the builder is returned. A string `$and` is an error and changes nothing. |
| Query.QueryBuilder.GetQuery | src/Communibase/Query/QueryBuilder.php:54-56 | Reads the selector that `add`, `addOr` and `addAnd` built, and changes nothing. |
| Query.QueryBuilder.Expr | src/Communibase/Query/QueryBuilder.php:61-66 | The first call creates the expression builder. Every later call returns that same instance. |
| Logging.Range | src/Communibase/Logging/DebugStack.php:43 | The log indexes 1 to n. |
| Logging.Started | src/Communibase/Logging/DebugStack.php:43-48 | A start adds the call at the next index with time 0, and the older entries are unchanged. |
| Logging.Stopped | src/Communibase/Logging/DebugStack.php:59 | A stop sets only the time of the current entry and keeps its query, params and data. Every other entry is unchanged. |
| Logging.DebugStack.constructor | src/Communibase/Logging/DebugStack.php:15-32 | A new stack is empty and enabled, with the counter at 0. |
| Logging.DebugStack.StartQuery | src/Communibase/Logging/DebugStack.php:37-49 | When disabled nothing changes. Otherwise the counter goes up by one, the call is logged at the new index, and the numbering 1..counter is kept. |
| Logging.DebugStack.StopQuery | src/Communibase/Logging/DebugStack.php:54-60 | When disabled nothing changes. Otherwise only the time of the current entry is set, and the counter is untouched. |
| Logging.StartAll | src/Communibase/Logging/DebugStack.php:43-48 | After `n` starts from counter `c`, the last call is logged at index `c + n`. |
| Logging.StartsAreNumbered | src/Communibase/Logging/DebugStack.php:43-48 | After any sequence of enabled starts the keys are exactly 1..counter. The k-th call sits at its index, and older entries are unchanged. |
| Logging.FreshStackLogsCalls | src/Communibase/Logging/DebugStack.php:43-48 | A fresh stack after `n` starts holds exactly the calls, at indexes 1..n. |
| Logging.StopKeepsNumbering | src/Communibase/Logging/DebugStack.php:54-60 | Stopping after a start keeps the numbering. Stopping before any start creates an entry 0 that holds only the time. |

## Left out

- Network I/O is not modelled: `call`, `getClient`, `doGet`/`doPost`/`doPut`/`doDelete`, the Host header workaround and the mapping of Guzzle exceptions. The HTTP exchange is the `Transport` parameter.
- The internals of `json_decode` and `json_last_error` are not modelled; the decoded value and the error code are the `Decoder` parameter.
- `getBinary` and `updateBinary` (streams, base64, multipart bodies, `date('c')`) are not part of this model.
- `getTemplate`, `getAll`, `getHistory`, `aggregate` and `destroy` are not part of this model. Each only forwards to `doGet`/`doPost`/`doDelete`.
- The connector's constructor, `addExtraHeaders`, `setQueryLogger` and `getQueryLogger` are configuration, and are not modelled.
- `EchoQueryLogger` only writes to standard output. `ConnectorInterface` and `QueryLogger` are interfaces without logic.
- The asynchronous `*Sync` behaviour its test file describes is not modelled; the connector has no such methods.
- The `invalid` case of the `getByRef` tests is not modelled: it is not marked as a test, and it expects a message the code never produces.
- `time()`, `gethostname()` and `md5()` are not computed: the time and the md5 text of the host name are parameters of `GenerateId`.
- `microtime(true)` is the `now` parameter of the `DebugStack` methods, and PHP floats are modelled as exact reals.
- JSON numbers with a fraction are not modelled: values are null, booleans, integers, strings and arrays.
- Reading a string with an offset (`$s['_id']`) is modelled as null; PHP 7 would return a character or warn.
- `getByIds` is modelled for string ids only; PHP's own handling of non-string ids is left out.
- `getByRef` reads a missing `rootDocumentEntityType`, `rootDocumentId` or `objectId` as the empty string and a missing `path` as the empty list, which `empty()` treats the same way.
- IdCodec.IdGenerator.GenerateId: the counter is an unbounded integer; its overflow past `PHP_INT_MAX` into a float is not modelled.
- Connector.GetByIdsSpec: returns a list; the key gaps `array_filter` leaves in the PHP array are not kept.
- Results.CodeArgument: only canonical integer numerals are converted; leading-numeric strings, strings with whitespace and float strings are refused instead of being converted with a notice.
- Query.QueryBuilder.Add: the expression is always an array. Under PHP 7 a non-array argument makes `array_merge` warn and return null, which leaves the query null; that path is not modelled.
- Connector.GetById: uses the corrected `IsIdValid`, so a valid id followed by "\n" is refused locally; the code as written sends it (see Findings and `Connector.NewlineIdPassesWrittenGuards`).
- Connector.ValidIds: uses the corrected `IsIdValid`, so a valid id followed by "\n" is dropped; the code as written keeps it and searches for it.
- GetByIdRejectsLocally: rests on the corrected `IsIdValid`; as written, a valid id followed by "\n" is not refused locally but sent.
- GetByIdSendsGet: states the GET for ids the corrected `IsIdValid` accepts; as written, a valid id followed by "\n" is fetched the same way.

## Findings

| source | as written | input that shows it | evidently intended | confidence | as-written member | corrected member |
|---|---|---|---|---|---|---|
| src/Communibase/Connector.php:650 | The pattern `#^[0-9a-fA-F]{24}$#` has no `D` modifier, so `$` also matches just before a final newline. `isIdValid` then accepts a 25-character string. | "507f1f77bcf86cd799439011\n" | An id is valid only when it is exactly 24 hexadecimal digits, as the docblock and the tests say. | not executed | IdCodec.TrailingNewlineAccepted | IdCodec.IsIdValidExactly |
