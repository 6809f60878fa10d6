# Stock catalogue: a Dafny model

This project models the core of a small stock-price web API. The API keeps an
in-memory catalogue of daily OHLCV records (open, high, low, close, volume),
keyed by ticker symbol without regard to case. A snapshot file reloads the
catalogue. The API answers three kinds of query: list the tickers, fetch one
record, and work out how many whole shares a budget buys at the last close.

The model has three parts, one per core source file:

- `stock.dfy` (module `Stocks`) holds the record, the rule attached to each
  field, `Valid`, and the list of validation errors. Validation checks every
  property, so every violated field yields one error.
- `repository.dfy` (module `Repository`) holds the catalogue and the load:
  - a class `JsonStockRepository` whose `stocks` map the load replaces and
    then fills in a loop;
  - the pure specification of that loop, element by element (`LoadLoop`),
    and the folds it reduces to on arrays without `null` elements, for the
    permissive policy (`Accepted`) and the strict policy (`StrictLoad`),
    with lemmas about first-wins, all-or-nothing and idempotence;
  - the two read-only queries.
- `service.dfy` (module `Service`) holds the validating facade as pure
  functions over the catalogue, including the share computation.
- `wrappers.dfy` holds `Option`, `Result` and one `Exception` constructor
  per .NET exception the code throws.

Modelling choices:

- Prices and budgets are exact integers in one fixed minor unit. C#'s
  `decimal` is exact base-10. Since the budget and the close share a unit,
  `floor(budget / close)` is Dafny's `/` on non-negative integers.
- A null `Ticker` is `None`.
- "Blank" means `string.IsNullOrWhiteSpace`, with the whitespace set of
  `Char.IsWhiteSpace` spelled out.
- The catalogue is a `map` from the case-folded ticker to the record. The key
  the dictionary exposes is the stored record's own `Ticker`, because the
  code adds `TryAdd(stock.Ticker, stock)`.
- The file system and the JSON parser are inputs, not code. A `FileSystem`
  value gives the illegal path characters and what opening and parsing each
  existing path yields. That is a file the OS will not open (IOException or
  UnauthorizedAccessException), malformed JSON (JsonException), a date that
  `DateOnly.Parse` rejects (FormatException) or that is `null`
  (ArgumentNullException), the literal `null`, or a parsed array whose
  elements may be `null`. The exceptions from opening and parsing come
  before the fresh dictionary is created, so they keep the previous
  catalogue.
- The loop over the array has its own element-by-element specification,
  `LoadLoop`. A `null` element makes the `ValidationContext` constructor
  throw ArgumentNullException (JsonStockRepository.cs:69). The catalogue
  built so far stays in place in both modes, so such a load is not
  all-or-nothing. The fold lemmas (`Accepted`, `StrictLoad`) describe arrays
  without `null` elements, and `NullElementKeepsPrefix` covers the other case.

Behaviours of the code worth noting:

- In strict mode (JsonStockRepository.cs:72-81), a *valid* record whose
  ticker repeats an accepted one (ignoring case) is not silently dropped.
  It takes the same branch as an invalid record: the catalogue is cleared,
  and a ValidationException is raised whose message lists no field errors
  ("Invalid stock entry: "). Only the permissive mode drops duplicates.
- The code does not build the new catalogue aside and swap it in
  (JsonStockRepository.cs:66). It publishes a fresh empty dictionary first
  and then fills it. The model therefore has no atomic-swap property.

## Model

| member | source | states |
|---|---|---|
| `Stocks.Errors` | StockApi/Models/Stock.cs:13-41 | a field is in the error list exactly when its rule is violated, and the errors appear once each, in declaration order |
| `Stocks.CheckFields` | StockApi/Repositories/JsonStockRepository.cs:69-71 | checking a list of properties reports exactly the listed fields whose rule is violated |
| `Stocks.Valid` | StockApi/Repositories/JsonStockRepository.cs:71 | a record passes validation exactly when it violates no field rule, so a valid record has a non-null, non-empty ticker |
| `Stocks.ValidIffNoErrors` | StockApi/Repositories/JsonStockRepository.cs:69-71 | TryValidateObject succeeds exactly when its result list is empty, and a valid record has a non-null ticker |
| `Stocks.ErrorCount` | StockApi/Models/Stock.cs:13-41 | the number of validation errors equals the number of violated rules, because all properties are validated |
| `Stocks.ValidityIgnoresDateAndPriceOrder` | StockApi/Models/Stock.cs:16-41 | a record with low above high is valid, whatever its date |
| `Stocks.Message` | StockApi/Models/Stock.cs:20-40 | each rule's error message is non-empty and ends with a full stop |
| `Stocks.Join` | StockApi/Repositories/JsonStockRepository.cs:78 | string.Join with "; " opens with the first part |
| `Stocks.JoinMessages` | StockApi/Repositories/JsonStockRepository.cs:78 | the joined error text is empty exactly when there are no errors; otherwise it opens with the first field's message and closes with the last one's, full stop included |
| `Stocks.JoinAppend` | StockApi/Repositories/JsonStockRepository.cs:78 | joining one more part appends "; " and that part, so the text is every part in order with "; " between neighbours |
| `Stocks.JoinEndsWithLast` | StockApi/Repositories/JsonStockRepository.cs:78 | the joined text closes with the last part |
| `Stocks.JoinListsEveryMessage` | StockApi/Repositories/JsonStockRepository.cs:78 | every validation result's message appears in the joined text, whatever text precedes it |
| `Repository.Accepted` | StockApi/Repositories/JsonStockRepository.cs:66-87 | the permissive fold yields a catalogue where every entry is valid and stored under its own ticker's case-folded key, and every entry is one of the input records |
| `Repository.Rejection` | StockApi/Repositories/JsonStockRepository.cs:78-81 | the exception message starts with "Invalid stock entry: ", contains the message of every rule the record violates, and is exactly that prefix when the record is valid, that is, rejected as a repeat |
| `Repository.StrictLoad` | StockApi/Repositories/JsonStockRepository.cs:72-81 | a strict fold that succeeds produces exactly the permissive catalogue |
| `Repository.AcceptedKeys` | StockApi/Repositories/JsonStockRepository.cs:72-75 | the keys after a permissive load are exactly the case-folded tickers of the valid records |
| `Repository.AcceptedFirstWins` | StockApi/Repositories/JsonStockRepository.cs:72-75 | under each key is stored the first valid record with that ticker |
| `Repository.StrictFailurePersists` | StockApi/Repositories/JsonStockRepository.cs:76-81 | once a strict load has thrown on a prefix, the later records do not change the outcome |
| `Repository.StrictSuccessMeansClean` | StockApi/Repositories/JsonStockRepository.cs:72-81 | a successful strict load saw only valid records and no repeated ticker |
| `Repository.CleanMeansStrictSuccess` | StockApi/Repositories/JsonStockRepository.cs:72-81 | valid records without a repeated ticker always load strictly |
| `Repository.StrictSucceedsIff` | StockApi/Repositories/JsonStockRepository.cs:72-81 | a strict load succeeds exactly when all records are valid and no ticker repeats, ignoring case |
| `Repository.StrictFailureNamesFirstOffender` | StockApi/Repositories/JsonStockRepository.cs:72-81 | a failed strict load reports the rejection message of the first record not admitted; all earlier records were admitted |
| `Repository.LoadLoop` | StockApi/Repositories/JsonStockRepository.cs:66-87 | the loop leaves only valid records, each under its own ticker's key and taken from the array; it throws only ArgumentNullException (null element) or, in strict mode only, ValidationException with an empty catalogue |
| `Repository.LoopStopPersists` | StockApi/Repositories/JsonStockRepository.cs:67-81 | once the loop has thrown on a prefix of the array, the later elements do not change the outcome or the catalogue |
| `Repository.PermissiveLoopWithoutNulls` | StockApi/Repositories/JsonStockRepository.cs:67-87 | on an array without null elements the permissive loop succeeds with the permissive fold's catalogue |
| `Repository.StrictLoopWithoutNulls` | StockApi/Repositories/JsonStockRepository.cs:67-81 | on an array without null elements the strict loop succeeds with the strict fold's catalogue, or throws its rejection message with an empty catalogue |
| `Repository.NullElementStops` | StockApi/Repositories/JsonStockRepository.cs:67-69 | a null element throws ArgumentNullException and keeps what the records before it built, unless a strict load had already thrown on one of them |
| `Repository.ReadSnapshot` | StockApi/Repositories/JsonStockRepository.cs:33-62 | reading succeeds exactly when the path is non-blank, has no illegal character, exists and parses to null or an array; null reads as an empty array; every failure is one of the six exceptions of the checks, the open and the parse |
| `Repository.LoadSpec` | StockApi/Repositories/JsonStockRepository.cs:29-100 | a load keeps the catalogue well formed, keeps the old catalogue when reading fails, throws ValidationException only in strict mode and then with an empty catalogue, and a successful permissive load stores only valid records |
| `Repository.PrechecksKeepCatalogue` | StockApi/Repositories/JsonStockRepository.cs:33-62 | blank path, illegal character and missing file are checked in that order, then the open and the parse; each failure has its own exception (IOException, JsonException, FormatException, ArgumentNullException for a null date) and keeps the previous catalogue |
| `Repository.NullDocumentLoadsEmpty` | StockApi/Repositories/JsonStockRepository.cs:62-66 | a JSON `null` document loads as an empty catalogue in either mode |
| `Repository.PermissiveLoad` | StockApi/Repositories/JsonStockRepository.cs:64-87 | on an array without null elements, a permissive load succeeds and keeps only valid records, with one key per case-insensitive ticker, each holding the first valid record with that ticker |
| `Repository.StrictLoadAllOrNothing` | StockApi/Repositories/JsonStockRepository.cs:72-81 | on an array without null elements, a strict load either equals the permissive load, when no record is invalid or repeated, or ends in a ValidationException with an empty catalogue |
| `Repository.NullElementKeepsPrefix` | StockApi/Repositories/JsonStockRepository.cs:66-69 | an array with a null element fails with ArgumentNullException and keeps the permissive catalogue of the records before it, in either mode, unless strict mode had already rejected one of those records; then it throws ValidationException with an empty catalogue |
| `Repository.LoadIdempotent` | StockApi/Repositories/JsonStockRepository.cs:65-66 | loading the same input twice gives the same outcome and catalogue as loading it once |
| `Repository.Tickers` | StockApi/Repositories/JsonStockRepository.cs:107 | every listed key is the original-case ticker of the record stored under its folded form, and every stored record's ticker is listed |
| `Repository.TickersOnePerKey` | StockApi/Repositories/JsonStockRepository.cs:102-107 | the listing has exactly one name per stored record |
| `Repository.Lookup` | StockApi/Repositories/JsonStockRepository.cs:118-130 | a blank ticker throws ArgumentNullException and nothing else does; a hit is a stored record whose ticker equals the query ignoring case; null means no stored ticker matches |
| `Repository.Fold` | StockApi/Repositories/JsonStockRepository.cs:66 | the comparison key has the same length as the ticker, agrees with it letter by letter ignoring case, and has no lower-case letter left, so folding it again changes nothing |
| `Repository.CaseChangeKeepsKey` | StockApi/Repositories/JsonStockRepository.cs:16 | upper- or lower-casing a ticker changes neither its comparison key nor its blankness |
| `Repository.LookupIgnoresCase` | StockApi/Repositories/JsonStockRepository.cs:118-130 | lookups of two spellings that differ only in case give the same answer, including the query's upper- and lower-case forms |
| `Repository.JsonStockRepository.constructor` | StockApi/Repositories/JsonStockRepository.cs:15-16 | a fresh repository has an empty catalogue and lists no tickers |
| `Repository.JsonStockRepository.LoadFromJonPath` | StockApi/Repositories/JsonStockRepository.cs:29-100 | the outcome and the new catalogue are those of the load specification, given the old catalogue; every stored entry stays valid; the policy defaults to permissive |
| `Repository.JsonStockRepository.GetAll` | StockApi/Repositories/JsonStockRepository.cs:102-116 | returns one original-case ticker per stored record, each naming the record stored under its key |
| `Repository.JsonStockRepository.GetByTicker` | StockApi/Repositories/JsonStockRepository.cs:118-130 | answers exactly as the case-insensitive lookup specification |
| `Service.GetAllTickers` | StockApi/Services/StockService.cs:19-22 | returns the repository's key listing unchanged, one name per record |
| `Service.GetStockByTicker` | StockApi/Services/StockService.cs:25-42 | a blank ticker throws ArgumentNullException; otherwise the result is exactly the repository's answer, null included, and never an error |
| `Service.Shares` | StockApi/Services/StockService.cs:70 | at a close of zero or less, 0 shares; otherwise floor(budget/close), so shares·close ≤ budget < (shares+1)·close; an overflow error exactly when the quotient exceeds int.MaxValue |
| `Service.GetBuyingOption` | StockApi/Services/StockService.cs:44-73 | the ticker is checked before the budget, and the budget before the lookup; an unknown ticker gives null; an option echoes the budget, carries the stored record's ticker, and buys the largest whole number of shares the budget affords, at most int.MaxValue; once the guards pass and the ticker is found, the call fails (OverflowException) exactly when the close is positive and budget/close exceeds int.MaxValue |
| `Service.AffordabilityExamples` | StockApi/Services/StockService.cs:70 | a budget of 1000.00 at a close of 202.30 buys 4 shares, and any budget at a close of 0 buys 0 |
| `Service.UnknownTickerIsAbsent` | StockApi/Services/StockService.cs:58-65 | an unknown, non-blank ticker with a positive budget gives null from both queries |
| `Service.KnownTickerYieldsOption` | StockApi/Services/StockService.cs:58-72 | a stored ticker with a positive budget, whose quotient fits an int, always gives an option |

## Left out

- File-system access: `Path.GetInvalidPathChars`, `File.Exists` and `File.OpenRead` are an input value (`FileSystem`), not code.
- JSON deserialisation, including the `required` Ticker and the date converter: its result is an input (`Document`). IOException and UnauthorizedAccessException from `File.OpenRead` are one failure, `IO`, because both keep the catalogue the same way.
- The date converter in StockApi/Converters/DateOnlyJsonConverter.cs is not part of this model. It wraps .NET date parsing and formatting.
- Concurrency: `ConcurrentDictionary` and readers running during a load are not modelled. The load is a sequential method.
- Logging has no effect on any result and is left out.
- HTTP controllers, dependency injection and the `Task` wrappers are left out. Every operation is synchronous.
- Enumeration order of the key listing: `GetAll` returns a set, because the dictionary's key order is unspecified.
- Repository.Fold: case folding covers ASCII letters only. OrdinalIgnoreCase also folds non-ASCII letters by their simple upper-case mapping.
- Service.Shares: models `budget / close` as exact division followed by floor. It does not model `decimal` rounding to 28-29 significant digits before `Math.Floor`. That rounding could lift a quotient just below an integer up to that integer.
- Service.Shares: decimal overflow in the division itself is folded into the same `Overflow` error as the `(int)` cast. Any quotient too large for decimal is already too large for an int.
- Stocks.Stock: `Volume` is an unbounded integer. The 64-bit range of `long` is enforced by the deserialiser, which is outside the model.
