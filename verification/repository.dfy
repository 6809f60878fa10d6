/**
  The JSON-backed stock repository: a case-insensitive catalogue that a load
  replaces and then fills record by record, and the two read-only queries over
  it.  The file system and the JSON deserialiser are not modelled as code: a
  `FileSystem` value says which characters are illegal in a path and which
  paths hold which document, and a document is either malformed, the JSON
  literal `null`, or an already-parsed array of records.
*/
module Repository {
  import opened Wrappers
  import opened Exceptions
  import opened Stocks

  // ---------------------------------------------------------------------------
  // Case-insensitive keys (StringComparer.OrdinalIgnoreCase on ASCII letters)
  // ---------------------------------------------------------------------------

  function UpperChar(c: char): char {
    if 'a' <= c <= 'z' then (c as int - 32) as char else c
  }

  function LowerChar(c: char): char {
    if 'A' <= c <= 'Z' then (c as int + 32) as char else c
  }

  function ToUpper(s: string): string {
    seq(|s|, i requires 0 <= i < |s| => UpperChar(s[i]))
  }

  /** The comparison key of a string: two strings compare equal ignoring case
      exactly when their upper-case forms are equal. */
  function Fold(s: string): (k: string)
    ensures |k| == |s|
    ensures forall i :: 0 <= i < |k| ==> LowerChar(k[i]) == LowerChar(s[i])
    ensures forall i :: 0 <= i < |k| ==> !('a' <= k[i] <= 'z') && UpperChar(k[i]) == k[i]
  {
    ToUpper(s)
  }

  function ToLower(s: string): string {
    seq(|s|, i requires 0 <= i < |s| => LowerChar(s[i]))
  }

  predicate SameTicker(a: string, b: string) {
    Fold(a) == Fold(b)
  }

  /** The dictionary key under which a record is stored. */
  function Key(s: Stock): string
    requires s.ticker.Some?
  {
    Fold(s.ticker.value)
  }

  /** The catalogue: folded key to record.  The key the dictionary exposes is
      the stored record's own `Ticker` (TryAdd(stock.Ticker, stock)). */
  type Catalogue = map<string, Stock>

  /** Every stored record is valid and is stored under its own ticker's key. */
  ghost predicate WellFormed(c: Catalogue) {
    forall k :: k in c ==> Valid(c[k]) && c[k].ticker.Some? && Key(c[k]) == k
  }

  // ---------------------------------------------------------------------------
  // The fold over the parsed records
  // ---------------------------------------------------------------------------

  /** The guard of the loop body: valid, and the ticker not yet a key. */
  predicate Admits(c: Catalogue, s: Stock) {
    Valid(s) && s.ticker.Some? && Key(s) !in c
  }

  /** The catalogue a permissive load builds from `rs`: each record in turn is
      added when admitted and skipped otherwise. */
  function Accepted(rs: seq<Stock>): (c: Catalogue)
    ensures WellFormed(c)
    ensures forall k :: k in c ==> c[k] in rs
  {
    if rs == [] then map[]
    else
      var c := Accepted(rs[..|rs| - 1]);
      var s := rs[|rs| - 1];
      if Admits(c, s) then c[Key(s) := s] else c
  }

  /** The text of the ValidationException thrown for a rejected record. */
  const RejectionPrefix: string := "Invalid stock entry: "

  /** The text of the ValidationException thrown for a rejected record: the
      prefix, then the message of every rule the record violates. */
  function Rejection(s: Stock): (m: string)
    ensures RejectionPrefix <= m
    ensures m == RejectionPrefix <==> Valid(s)
    ensures forall f :: Violates(s, f) ==> Occurs(Message(f), m)
  {
    var errs := Errors(s);
    ValidIffNoErrors(s);
    JoinListsEveryMessage(errs, RejectionPrefix);
    RejectionPrefix + JoinMessages(errs)
  }

  /** A strict load of `rs`: the same fold, but the first record that is not
      admitted ends it with that record's rejection message. */
  function StrictLoad(rs: seq<Stock>): (r: Result<Catalogue, string>)
    ensures r.Success? ==> r.value == Accepted(rs)
  {
    if rs == [] then Success(map[])
    else
      match StrictLoad(rs[..|rs| - 1])
      case Failure(m) => Failure(m)
      case Success(c) =>
        var s := rs[|rs| - 1];
        if Admits(c, s) then Success(c[Key(s) := s]) else Failure(Rejection(s))
  }

  /** One step of the permissive fold, on a prefix of the records. */
  lemma AcceptedStep(rs: seq<Stock>, i: nat)
    requires i < |rs|
    ensures var c := Accepted(rs[..i]);
      Accepted(rs[..i + 1]) == if Admits(c, rs[i]) then c[Key(rs[i]) := rs[i]] else c
  {
    assert rs[..i + 1][..i] == rs[..i];
  }

  /** One step of the strict fold, on a prefix of the records. */
  lemma StrictStep(rs: seq<Stock>, i: nat)
    requires i < |rs| && StrictLoad(rs[..i]).Success?
    ensures var c := StrictLoad(rs[..i]).value;
      StrictLoad(rs[..i + 1]) ==
        if Admits(c, rs[i]) then Success(c[Key(rs[i]) := rs[i]]) else Failure(Rejection(rs[i]))
  {
    assert rs[..i + 1][..i] == rs[..i];
  }

  /** Record `i` is valid and no earlier valid record has the same key. */
  ghost predicate FirstOfItsKey(rs: seq<Stock>, i: int) {
    0 <= i < |rs| && Valid(rs[i]) && rs[i].ticker.Some? &&
    forall j :: 0 <= j < i && Valid(rs[j]) && rs[j].ticker.Some? ==> Key(rs[j]) != Key(rs[i])
  }

  /** Some valid record of `rs` has key `k`. */
  ghost predicate HasValidWithKey(rs: seq<Stock>, k: string) {
    exists i :: 0 <= i < |rs| && Valid(rs[i]) && rs[i].ticker.Some? && Key(rs[i]) == k
  }

  /** The keys of a permissive load are exactly the keys of the valid records. */
  lemma {:induction false} AcceptedKeys(rs: seq<Stock>, k: string)
    ensures k in Accepted(rs) <==> HasValidWithKey(rs, k)
  {
    if rs != [] {
      var p := rs[..|rs| - 1];
      AcceptedKeys(p, k);
      if HasValidWithKey(p, k) {
        var i :| 0 <= i < |p| && Valid(p[i]) && p[i].ticker.Some? && Key(p[i]) == k;
        assert rs[i] == p[i];
      }
      assert forall i :: 0 <= i < |p| ==> p[i] == rs[i];
    }
  }

  /** First wins: the record stored under a key is the first valid record
      with that key, and it is stored under its own ticker. */
  lemma {:induction false} AcceptedFirstWins(rs: seq<Stock>, i: int)
    requires FirstOfItsKey(rs, i)
    ensures Key(rs[i]) in Accepted(rs) && Accepted(rs)[Key(rs[i])] == rs[i]
  {
    var p := rs[..|rs| - 1];
    var k := Key(rs[i]);
    if i == |rs| - 1 {
      assert forall j :: 0 <= j < |p| ==> p[j] == rs[j];
      AcceptedKeys(p, k);
    } else {
      assert p[i] == rs[i];
      forall j | 0 <= j < i && Valid(p[j]) && p[j].ticker.Some? ensures Key(p[j]) != Key(p[i]) {
        assert p[j] == rs[j];
      }
      AcceptedFirstWins(p, i);
    }
  }

  /** Once a strict load of a prefix fails, the whole load fails with the same message. */
  lemma {:induction false} StrictFailurePersists(rs: seq<Stock>, n: nat)
    requires n <= |rs| && StrictLoad(rs[..n]).Failure?
    ensures StrictLoad(rs) == StrictLoad(rs[..n])
    decreases |rs| - n
  {
    if n < |rs| {
      var q := rs[..n + 1];
      assert q[..|q| - 1] == rs[..n];
      assert StrictLoad(q) == StrictLoad(rs[..n]);
      assert rs[..n + 1][..n + 1] == rs[..n + 1];
      StrictFailurePersists(rs, n + 1);
    } else {
      assert rs[..n] == rs;
    }
  }

  /** Every record is valid. */
  ghost predicate AllValid(rs: seq<Stock>) {
    forall i :: 0 <= i < |rs| ==> Valid(rs[i])
  }

  /** No two valid records share a key (case-insensitive ticker). */
  ghost predicate NoRepeatedTicker(rs: seq<Stock>) {
    forall i, j ::
      0 <= i < j < |rs| && Valid(rs[i]) && Valid(rs[j]) && rs[i].ticker.Some? && rs[j].ticker.Some?
      ==> Key(rs[i]) != Key(rs[j])
  }

  /** A clean prefix followed by a valid record with a new key is clean. */
  lemma ExtendClean(rs: seq<Stock>)
    requires rs != []
    requires AllValid(rs[..|rs| - 1]) && NoRepeatedTicker(rs[..|rs| - 1])
    requires Valid(rs[|rs| - 1]) && rs[|rs| - 1].ticker.Some?
    requires !HasValidWithKey(rs[..|rs| - 1], Key(rs[|rs| - 1]))
    ensures AllValid(rs) && NoRepeatedTicker(rs)
  {
    var p := rs[..|rs| - 1];
    forall i, j | 0 <= i < j < |rs| && Valid(rs[i]) && Valid(rs[j]) && rs[i].ticker.Some? && rs[j].ticker.Some?
      ensures Key(rs[i]) != Key(rs[j])
    {
      assert rs[i] == p[i];
      if j < |p| {
        assert rs[j] == p[j];
      }
    }
    assert forall i :: 0 <= i < |p| ==> rs[i] == p[i];
  }

  /** The prefix of a clean sequence is clean, and its last record is valid
      with a key no earlier valid record has. */
  lemma ShrinkClean(rs: seq<Stock>)
    requires rs != [] && AllValid(rs) && NoRepeatedTicker(rs)
    ensures AllValid(rs[..|rs| - 1]) && NoRepeatedTicker(rs[..|rs| - 1])
    ensures Valid(rs[|rs| - 1]) && (rs[|rs| - 1].ticker.Some? ==> !HasValidWithKey(rs[..|rs| - 1], Key(rs[|rs| - 1])))
  {
    var p := rs[..|rs| - 1];
    assert forall i :: 0 <= i < |p| ==> rs[i] == p[i];
  }

  /** A strict load that succeeds also succeeded on the shorter prefix and
      admitted the last record. */
  lemma StrictSuccessStep(rs: seq<Stock>)
    requires rs != [] && StrictLoad(rs).Success?
    ensures StrictLoad(rs[..|rs| - 1]).Success? && Admits(Accepted(rs[..|rs| - 1]), rs[|rs| - 1])
  {
  }

  /** A strict load that succeeds saw only valid records and no repeated ticker. */
  lemma {:induction false} StrictSuccessMeansClean(rs: seq<Stock>)
    requires StrictLoad(rs).Success?
    ensures AllValid(rs) && NoRepeatedTicker(rs)
  {
    if rs != [] {
      var p := rs[..|rs| - 1];
      var s := rs[|rs| - 1];
      StrictSuccessStep(rs);
      StrictSuccessMeansClean(p);
      AcceptedKeys(p, Key(s));
      ExtendClean(rs);
    }
  }

  /** A strict load of valid records without a repeated ticker succeeds. */
  lemma {:induction false} CleanMeansStrictSuccess(rs: seq<Stock>)
    requires AllValid(rs) && NoRepeatedTicker(rs)
    ensures StrictLoad(rs).Success?
  {
    if rs != [] {
      var p := rs[..|rs| - 1];
      var s := rs[|rs| - 1];
      ShrinkClean(rs);
      CleanMeansStrictSuccess(p);
      ValidIffNoErrors(s);
      AcceptedKeys(p, Key(s));
    }
  }

  /** All-or-nothing: a strict load succeeds exactly when every record is
      valid and no ticker repeats ignoring case; an invalid record or a
      repeated ticker anywhere makes it fail. */
  lemma StrictSucceedsIff(rs: seq<Stock>)
    ensures StrictLoad(rs).Success? <==> AllValid(rs) && NoRepeatedTicker(rs)
  {
    if StrictLoad(rs).Success? {
      StrictSuccessMeansClean(rs);
    }
    if AllValid(rs) && NoRepeatedTicker(rs) {
      CleanMeansStrictSuccess(rs);
    }
  }

  /** Record `i` is the first the strict fold does not admit: the fold
      succeeded on everything before it. */
  ghost predicate FirstOffender(rs: seq<Stock>, i: int) {
    0 <= i < |rs| && StrictLoad(rs[..i]).Success? && !Admits(Accepted(rs[..i]), rs[i])
  }

  /** A failed strict load reports the rejection of record `i`, its first offender. */
  ghost predicate FailsAt(rs: seq<Stock>, i: int) {
    FirstOffender(rs, i) && StrictLoad(rs) == Failure(Rejection(rs[i]))
  }

  /** The message of a failed strict load is the rejection of the first
      record the fold does not admit; every record before it was admitted. */
  lemma {:induction false} StrictFailureNamesFirstOffender(rs: seq<Stock>)
    requires StrictLoad(rs).Failure?
    ensures exists i :: FailsAt(rs, i)
  {
    var n := |rs| - 1;
    var p := rs[..n];
    if StrictLoad(p).Failure? {
      StrictFailureNamesFirstOffender(p);
      var i :| FailsAt(p, i);
      OffenderOfPrefix(rs, n, i);
    } else {
      assert rs[..n + 1] == rs;
      StrictStep(rs, n);
      assert FailsAt(rs, n);
    }
  }

  /** The first offender of a failed prefix is the first offender of the whole. */
  lemma OffenderOfPrefix(rs: seq<Stock>, n: nat, i: int)
    requires n <= |rs| && FailsAt(rs[..n], i)
    ensures FailsAt(rs, i)
  {
    var p := rs[..n];
    assert FirstOffender(p, i);
    assert p[..i] == rs[..i];
    assert p[i] == rs[i];
    assert FirstOffender(rs, i);
    StrictFailurePersists(rs, n);
    assert StrictLoad(rs) == Failure(Rejection(rs[i]));
  }

  // ---------------------------------------------------------------------------
  // The loop over the parsed array
  // ---------------------------------------------------------------------------

  /** The loop as the code runs it, element by element, from a fresh empty
      dictionary.  A null element makes the ValidationContext constructor
      throw ArgumentNullException and leaves the dictionary as it stands; a
      record that is not admitted is skipped (permissive) or clears the
      dictionary and throws (strict). */
  function LoadLoop(items: seq<Option<Stock>>, ignoreInvalid: bool): (r: (Outcome, Catalogue))
    ensures WellFormed(r.1)
    ensures r.0.Failed? ==> r.0.error == ArgumentNull || r.0.error.Validation?
    ensures r.0.Failed? && r.0.error.Validation? ==> !ignoreInvalid && r.1 == map[]
    ensures forall k :: k in r.1 ==> Some(r.1[k]) in items
  {
    if items == [] then (Loaded, map[])
    else
      var (o, c) := LoadLoop(items[..|items| - 1], ignoreInvalid);
      if o.Failed? then (o, c)
      else
        match items[|items| - 1]
        case None => (Failed(ArgumentNull), c)
        case Some(s) =>
          if Admits(c, s) then (Loaded, c[Key(s) := s])
          else if ignoreInvalid then (Loaded, c)
          else (Failed(Validation(Rejection(s))), map[])
  }

  /** One iteration of the loop, on a prefix of the array. */
  lemma LoopStep(items: seq<Option<Stock>>, i: nat, ignoreInvalid: bool)
    requires i < |items| && LoadLoop(items[..i], ignoreInvalid).0 == Loaded
    ensures var c := LoadLoop(items[..i], ignoreInvalid).1;
      LoadLoop(items[..i + 1], ignoreInvalid) ==
        match items[i]
        case None => (Failed(ArgumentNull), c)
        case Some(s) =>
          if Admits(c, s) then (Loaded, c[Key(s) := s])
          else if ignoreInvalid then (Loaded, c)
          else (Failed(Validation(Rejection(s))), map[])
  {
    assert items[..i + 1][..i] == items[..i];
  }

  /** Once the loop has thrown on a prefix, the later elements are never seen. */
  lemma {:induction false} LoopStopPersists(items: seq<Option<Stock>>, n: nat, ignoreInvalid: bool)
    requires n <= |items| && LoadLoop(items[..n], ignoreInvalid).0.Failed?
    ensures LoadLoop(items, ignoreInvalid) == LoadLoop(items[..n], ignoreInvalid)
    decreases |items| - n
  {
    if n < |items| {
      assert items[..n + 1][..n] == items[..n];
      LoopStopPersists(items, n + 1, ignoreInvalid);
    } else {
      assert items[..n] == items;
    }
  }

  /** An array of records without a null element. */
  function Wrap(rs: seq<Stock>): (items: seq<Option<Stock>>)
    ensures |items| == |rs|
    ensures forall i :: 0 <= i < |rs| ==> items[i] == Some(rs[i])
    ensures None !in items
  {
    seq(|rs|, i requires 0 <= i < |rs| => Some(rs[i]))
  }

  /** Without null elements the permissive loop is the permissive fold. */
  lemma {:induction false} PermissiveLoopWithoutNulls(rs: seq<Stock>)
    ensures LoadLoop(Wrap(rs), true) == (Loaded, Accepted(rs))
  {
    if rs != [] {
      var n := |rs| - 1;
      PermissiveLoopWithoutNulls(rs[..n]);
      assert Wrap(rs)[..n] == Wrap(rs[..n]);
      assert Wrap(rs)[..n + 1] == Wrap(rs);
      LoopStep(Wrap(rs), n, true);
      AcceptedStep(rs, n);
      assert rs[..n + 1] == rs;
    }
  }

  /** Without null elements the strict loop is the strict fold, its failure
      turned into a ValidationException and an empty dictionary. */
  lemma {:induction false} StrictLoopWithoutNulls(rs: seq<Stock>)
    ensures LoadLoop(Wrap(rs), false) ==
      match StrictLoad(rs)
      case Success(c) => (Loaded, c)
      case Failure(m) => (Failed(Validation(m)), map[])
  {
    if rs != [] {
      var n := |rs| - 1;
      StrictLoopWithoutNulls(rs[..n]);
      assert Wrap(rs)[..n] == Wrap(rs[..n]);
      assert Wrap(rs)[..n + 1] == Wrap(rs);
      assert rs[..n + 1] == rs;
      if StrictLoad(rs[..n]).Success? {
        LoopStep(Wrap(rs), n, false);
        StrictStep(rs, n);
      }
    }
  }

  /** A null element ends the load with ArgumentNullException and keeps what
      the records before it built, unless a strict load had already thrown
      on one of them. */
  lemma NullElementStops(rs: seq<Stock>, tail: seq<Option<Stock>>)
    ensures LoadLoop(Wrap(rs) + [None] + tail, true) == (Failed(ArgumentNull), Accepted(rs))
    ensures LoadLoop(Wrap(rs) + [None] + tail, false) ==
      match StrictLoad(rs)
      case Success(c) => (Failed(ArgumentNull), c)
      case Failure(m) => (Failed(Validation(m)), map[])
  {
    var items := Wrap(rs) + [None] + tail;
    var n := |rs|;
    assert items[..n] == Wrap(rs);
    PermissiveLoopWithoutNulls(rs);
    StrictLoopWithoutNulls(rs);
    LoopStep(items, n, true);
    LoopStopPersists(items, n + 1, true);
    if StrictLoad(rs).Success? {
      LoopStep(items, n, false);
      LoopStopPersists(items, n + 1, false);
    } else {
      LoopStopPersists(items, n, false);
    }
  }

  // ---------------------------------------------------------------------------
  // The load as a whole
  // ---------------------------------------------------------------------------

  /** What opening and deserialising an existing file yields. */
  datatype Document =
    | Unreadable                               // File.OpenRead throws an IOException
    | Malformed                                // the deserialiser throws a JsonException
    | UnparsableDate                           // DateOnly.Parse throws a FormatException
    | NullDate                                 // DateOnly.Parse(null) throws ArgumentNullException
    | JsonNull                                 // the literal `null`
    | JsonArray(items: seq<Option<Stock>>)     // an array, possibly with null elements

  /** The part of the environment a load consults. */
  datatype FileSystem = FileSystem(invalidPathChars: set<char>, files: map<string, Document>)

  datatype Outcome = Loaded | Failed(error: Exception)

  predicate HasIllegalChar(fs: FileSystem, path: string) {
    exists i :: 0 <= i < |path| && path[i] in fs.invalidPathChars
  }

  /** The pre-checks, the open and the parse, in the order the code performs
      them; a `null` document is an empty array. */
  function ReadSnapshot(fs: FileSystem, path: Option<string>): (r: Result<seq<Option<Stock>>, Exception>)
    ensures r.Success? <==>
      !IsBlank(path) && !HasIllegalChar(fs, path.value) && path.value in fs.files
      && (fs.files[path.value].JsonNull? || fs.files[path.value].JsonArray?)
    ensures r.Failure? ==> r.error in {ArgumentNull, Argument, FileNotFound, IO, Json, Format}
    ensures r.Success? && fs.files[path.value].JsonNull? ==> r.value == []
    ensures r.Success? && fs.files[path.value].JsonArray? ==> r.value == fs.files[path.value].items
  {
    if IsBlank(path) then Failure(ArgumentNull)
    else if HasIllegalChar(fs, path.value) then Failure(Argument)
    else if path.value !in fs.files then Failure(FileNotFound)
    else
      match fs.files[path.value]
      case Unreadable => Failure(IO)
      case Malformed => Failure(Json)
      case UnparsableDate => Failure(Format)
      case NullDate => Failure(ArgumentNull)
      case JsonNull => Success([])
      case JsonArray(items) => Success(items)
  }

  /** The outcome of a load and the catalogue left behind, given the
      catalogue before it. */
  function LoadSpec(current: Catalogue, fs: FileSystem, path: Option<string>, ignoreInvalid: bool): (r: (Outcome, Catalogue))
    ensures WellFormed(current) ==> WellFormed(r.1)
    ensures ReadSnapshot(fs, path).Failure? ==> r.0.Failed? && r.1 == current
    ensures r.0.Failed? && r.0.error.Validation? ==> !ignoreInvalid && r.1 == map[]
    ensures ignoreInvalid && r.0 == Loaded ==> forall k :: k in r.1 ==> Valid(r.1[k])
  {
    match ReadSnapshot(fs, path)
    case Failure(e) => (Failed(e), current)
    case Success(items) => LoadLoop(items, ignoreInvalid)
  }

  /** The path checks, the open and the parse run in a fixed order, each with
      its own exception, and all of them leave the previous catalogue in
      place. */
  lemma PrechecksKeepCatalogue(current: Catalogue, fs: FileSystem, path: Option<string>, ignoreInvalid: bool)
    ensures var (r, c) := LoadSpec(current, fs, path, ignoreInvalid);
      && (IsBlank(path) ==> r == Failed(ArgumentNull) && c == current)
      && (!IsBlank(path) && HasIllegalChar(fs, path.value) ==> r == Failed(Argument) && c == current)
      && (!IsBlank(path) && !HasIllegalChar(fs, path.value) && path.value !in fs.files
          ==> r == Failed(FileNotFound) && c == current)
      && (!IsBlank(path) && !HasIllegalChar(fs, path.value) && path.value in fs.files
          ==> match fs.files[path.value]
              case Unreadable => r == Failed(IO) && c == current
              case Malformed => r == Failed(Json) && c == current
              case UnparsableDate => r == Failed(Format) && c == current
              case NullDate => r == Failed(ArgumentNull) && c == current
              case _ => true)
  {
  }

  /** A document holding `null` loads as an empty catalogue, in either mode. */
  lemma NullDocumentLoadsEmpty(current: Catalogue, fs: FileSystem, path: string, ignoreInvalid: bool)
    requires !IsBlank(Some(path)) && !HasIllegalChar(fs, path)
    requires path in fs.files && fs.files[path] == JsonNull
    ensures LoadSpec(current, fs, Some(path), ignoreInvalid) == (Loaded, map[])
  {
  }

  /** A permissive load of an array without null elements succeeds; its
      catalogue holds only valid records, exactly one key per
      case-insensitive ticker among the valid records, and under each key the
      first valid record with that ticker. */
  lemma PermissiveLoad(current: Catalogue, fs: FileSystem, path: Option<string>, rs: seq<Stock>)
    requires ReadSnapshot(fs, path) == Success(Wrap(rs))
    ensures var (r, c) := LoadSpec(current, fs, path, true);
      && r == Loaded
      && WellFormed(c)
      && (forall k :: k in c <==> HasValidWithKey(rs, k))
      && (forall i :: FirstOfItsKey(rs, i) ==> Key(rs[i]) in c && c[Key(rs[i])] == rs[i])
  {
    PermissiveLoopWithoutNulls(rs);
    forall k ensures k in Accepted(rs) <==> HasValidWithKey(rs, k) {
      AcceptedKeys(rs, k);
    }
    forall i | FirstOfItsKey(rs, i) ensures Key(rs[i]) in Accepted(rs) && Accepted(rs)[Key(rs[i])] == rs[i] {
      AcceptedFirstWins(rs, i);
    }
  }

  /** A strict load of an array without null elements either reproduces the
      permissive catalogue (when every record is valid and no ticker repeats)
      or fails with a ValidationException and an empty catalogue, discarding
      records it had already accepted. */
  lemma StrictLoadAllOrNothing(current: Catalogue, fs: FileSystem, path: Option<string>, rs: seq<Stock>)
    requires ReadSnapshot(fs, path) == Success(Wrap(rs))
    ensures var (r, c) := LoadSpec(current, fs, path, false);
      && (AllValid(rs) && NoRepeatedTicker(rs) ==> r == Loaded && c == LoadSpec(current, fs, path, true).1)
      && (!(AllValid(rs) && NoRepeatedTicker(rs)) ==> r.Failed? && r.error.Validation? && c == map[])
  {
    PermissiveLoopWithoutNulls(rs);
    StrictLoopWithoutNulls(rs);
    StrictSucceedsIff(rs);
  }

  /** A null element in the array is not a validation failure: in either mode
      the load throws ArgumentNullException and keeps the catalogue the
      records before it built, which is not all-or-nothing; only a strict
      load that had already rejected an earlier record throws its
      ValidationException instead. */
  lemma NullElementKeepsPrefix(current: Catalogue, fs: FileSystem, path: Option<string>,
                               rs: seq<Stock>, tail: seq<Option<Stock>>)
    requires ReadSnapshot(fs, path) == Success(Wrap(rs) + [None] + tail)
    ensures LoadSpec(current, fs, path, true) == (Failed(ArgumentNull), Accepted(rs))
    ensures AllValid(rs) && NoRepeatedTicker(rs) ==>
      LoadSpec(current, fs, path, false) == (Failed(ArgumentNull), Accepted(rs))
    ensures !(AllValid(rs) && NoRepeatedTicker(rs)) ==>
      LoadSpec(current, fs, path, false).0.Failed?
      && LoadSpec(current, fs, path, false).0.error.Validation?
      && LoadSpec(current, fs, path, false).1 == map[]
  {
    NullElementStops(rs, tail);
    StrictSucceedsIff(rs);
  }

  /** Every load starts from a fresh dictionary, so repeating it changes nothing. */
  lemma LoadIdempotent(current: Catalogue, fs: FileSystem, path: Option<string>, ignoreInvalid: bool)
    ensures var first := LoadSpec(current, fs, path, ignoreInvalid);
      LoadSpec(first.1, fs, path, ignoreInvalid) == first
  {
  }

  // ---------------------------------------------------------------------------
  // Queries
  // ---------------------------------------------------------------------------

  /** The key listing: the stored records' own tickers. */
  function Tickers(c: Catalogue): (names: set<string>)
    ensures WellFormed(c) ==> forall t :: t in names ==> Fold(t) in c && c[Fold(t)].ticker == Some(t)
    ensures WellFormed(c) ==> forall k :: k in c ==> c[k].ticker.value in names
  {
    set k | k in c && c[k].ticker.Some? :: c[k].ticker.value
  }

  /** One listed name per stored record: distinct keys never share a ticker. */
  lemma {:induction false} TickersOnePerKey(c: Catalogue)
    requires WellFormed(c)
    ensures |Tickers(c)| == |c|
    decreases |c|
  {
    if c != map[] {
      var k :| k in c;
      var rest := c - {k};
      assert rest.Keys == c.Keys - {k};
      TickersOnePerKey(rest);
      TickersWithout(c, k);
    }
  }

  /** Removing one key removes exactly its record's ticker from the listing. */
  lemma TickersWithout(c: Catalogue, k: string)
    requires WellFormed(c) && k in c
    ensures Tickers(c) == Tickers(c - {k}) + {c[k].ticker.value}
    ensures c[k].ticker.value !in Tickers(c - {k})
  {
    var rest := c - {k};
    var t := c[k].ticker.value;
    forall u | u in Tickers(c) ensures u in Tickers(rest) + {t} {
      var j :| j in c && c[j].ticker == Some(u);
      if j != k {
        assert j in rest;
      }
    }
  }

  /** GetByTickerAsync: a blank ticker throws; otherwise the record stored
      under the same ticker ignoring case, or null. */
  function Lookup(c: Catalogue, ticker: Option<string>): (r: Result<Option<Stock>, Exception>)
    ensures r.Failure? <==> IsBlank(ticker)
    ensures r.Failure? ==> r.error == ArgumentNull
    ensures WellFormed(c) && r.Success? && r.value.Some? ==>
      r.value.value in c.Values && SameTicker(r.value.value.ticker.value, ticker.value)
    ensures WellFormed(c) && r == Success(None) ==>
      forall s :: s in c.Values ==> !SameTicker(s.ticker.value, ticker.value)
  {
    if IsBlank(ticker) then Failure(ArgumentNull)
    else
      var k := Fold(ticker.value);
      if k in c then Success(Some(c[k])) else Success(None)
  }

  /** Case changes neither blankness nor the comparison key. */
  lemma {:induction false} CaseChangeKeepsKey(t: string)
    ensures Fold(ToUpper(t)) == Fold(t) && Fold(ToLower(t)) == Fold(t)
    ensures IsBlank(Some(ToUpper(t))) == IsBlank(Some(t)) && IsBlank(Some(ToLower(t))) == IsBlank(Some(t))
  {
    assert forall i :: 0 <= i < |t| ==> IsWhiteSpace(ToUpper(t)[i]) == IsWhiteSpace(t[i]);
    assert forall i :: 0 <= i < |t| ==> IsWhiteSpace(ToLower(t)[i]) == IsWhiteSpace(t[i]);
  }

  /** Lookups agree for any two spellings that differ only in case, among
      them the upper- and lower-case forms of the query. */
  lemma {:induction false} LookupIgnoresCase(c: Catalogue, t: string, u: string)
    requires SameTicker(t, u)
    ensures Lookup(c, Some(t)) == Lookup(c, Some(u))
    ensures Lookup(c, Some(t)) == Lookup(c, Some(ToUpper(t))) == Lookup(c, Some(ToLower(t)))
  {
    assert forall i :: 0 <= i < |t| ==> IsWhiteSpace(t[i]) == IsWhiteSpace(u[i]) by {
      forall i | 0 <= i < |t| ensures IsWhiteSpace(t[i]) == IsWhiteSpace(u[i]) {
        assert Fold(t)[i] == Fold(u)[i];
      }
    }
    CaseChangeKeepsKey(t);
  }

  // ---------------------------------------------------------------------------
  // The repository object
  // ---------------------------------------------------------------------------

  class JsonStockRepository {
    /** `_stocks`, keyed by folded ticker. */
    var stocks: Catalogue

    ghost predicate Consistent()
      reads this
    {
      WellFormed(stocks)
    }

    /** A fresh repository holds an empty catalogue, so it lists no tickers. */
    constructor()
      ensures Consistent() && stocks == map[] && Tickers(stocks) == {}
    {
      stocks := map[];
    }

    /** LoadFromJonPath: the pre-checks, the open and the parse leave
        `stocks` alone; then a fresh empty dictionary replaces it and the
        elements are folded in one by one.  The C# parameter defaults to the
        permissive policy, which is how the application calls it. */
    method LoadFromJonPath(fs: FileSystem, path: Option<string>, ignoreInvalid: bool := true) returns (r: Outcome)
      requires Consistent()
      modifies this
      ensures Consistent()
      ensures (r, stocks) == LoadSpec(old(stocks), fs, path, ignoreInvalid)
    {
      var snapshot := ReadSnapshot(fs, path);
      if snapshot.Failure? {
        return Failed(snapshot.error);
      }
      var items := snapshot.value;
      stocks := map[];
      var i := 0;
      while i < |items|
        invariant 0 <= i <= |items|
        invariant LoadLoop(items[..i], ignoreInvalid) == (Loaded, stocks)
      {
        LoopStep(items, i, ignoreInvalid);
        if items[i].None? {
          LoopStopPersists(items, i + 1, ignoreInvalid);
          return Failed(ArgumentNull);
        }
        var stock := items[i].value;
        var isValid := Errors(stock) == [];
        ValidIffNoErrors(stock);
        if isValid && Key(stock) !in stocks {
          stocks := stocks[Key(stock) := stock];
        } else if !ignoreInvalid {
          var message := Rejection(stock);
          stocks := map[];
          LoopStopPersists(items, i + 1, ignoreInvalid);
          return Failed(Validation(message));
        }
        i := i + 1;
      }
      assert items[..i] == items;
      return Loaded;
    }

    /** GetAllAsync: the keys of the dictionary. */
    method GetAll() returns (keys: set<string>)
      requires Consistent()
      ensures keys == Tickers(stocks)
      ensures |keys| == |stocks|
      ensures forall t :: t in keys ==> Fold(t) in stocks && stocks[Fold(t)].ticker == Some(t)
    {
      TickersOnePerKey(stocks);
      keys := set k | k in stocks :: stocks[k].ticker.value;
    }

    /** GetByTickerAsync. */
    method GetByTicker(ticker: Option<string>) returns (r: Result<Option<Stock>, Exception>)
      ensures r == Lookup(stocks, ticker)
    {
      if IsBlank(ticker) {
        return Failure(ArgumentNull);
      }
      var key := Fold(ticker.value);
      if key in stocks {
        return Success(Some(stocks[key]));
      }
      return Success(None);
    }
  }
}
