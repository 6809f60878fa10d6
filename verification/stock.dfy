/**
  The stock record and the field rules its DataAnnotations declare:
  `Ticker` is [Required]; `Open`, `Close`, `High`, `Low` and `Volume` carry
  [Range(0, double.MaxValue)].  Prices are exact integers in one fixed minor
  unit (C#'s `decimal` is exact base-10), so a rule "price >= 0" is a rule on
  an integer.
*/
module Stocks {
  import opened Wrappers

  /** Trading day.  No rule constrains it. */
  datatype Date = Date(year: int, month: int, day: int)

  /** One trading day of OHLCV data; `ticker` is `None` when the document held `null`. */
  datatype Stock = Stock(
    ticker: Option<string>,
    date: Date,
    open: int,
    close: int,
    high: int,
    low: int,
    volume: int)

  /** The properties that carry a validation attribute, in declaration order. */
  datatype Field = Ticker | Open | Close | High | Low | Volume

  const DeclaredFields: seq<Field> := [Ticker, Open, Close, High, Low, Volume]

  /** Char.IsWhiteSpace: the Unicode space, line and paragraph separators,
      U+0009..U+000D and U+0085. */
  predicate IsWhiteSpace(c: char) {
    c == ' ' || ('\t' <= c <= '\r') || c == '\U{0085}' || c == '\U{00A0}' || c == '\U{1680}'
    || ('\U{2000}' <= c <= '\U{200A}') || c == '\U{2028}' || c == '\U{2029}'
    || c == '\U{202F}' || c == '\U{205F}' || c == '\U{3000}'
  }

  /** string.IsNullOrWhiteSpace, which is also what [Required] rejects on a string. */
  predicate IsBlank(s: Option<string>) {
    s.None? || forall i :: 0 <= i < |s.value| ==> IsWhiteSpace(s.value[i])
  }

  /** The rule attached to one field, stated field by field. */
  predicate Violates(s: Stock, f: Field) {
    match f
    case Ticker => IsBlank(s.ticker)
    case Open => s.open < 0
    case Close => s.close < 0
    case High => s.high < 0
    case Low => s.low < 0
    case Volume => s.volume < 0
  }

  /** What Validator.TryValidateObject returns for a record: no rule is
      violated, so a null or empty ticker is never valid. */
  predicate Valid(s: Stock)
    ensures Valid(s) <==> forall f :: !Violates(s, f)
    ensures Valid(s) ==> s.ticker.Some? && |s.ticker.value| > 0
  {
    assert Violates(s, Ticker) == IsBlank(s.ticker) && Violates(s, Open) == (s.open < 0);
    assert Violates(s, Close) == (s.close < 0) && Violates(s, High) == (s.high < 0);
    assert Violates(s, Low) == (s.low < 0) && Violates(s, Volume) == (s.volume < 0);
    !IsBlank(s.ticker) && 0 <= s.open && 0 <= s.close && 0 <= s.high && 0 <= s.low && 0 <= s.volume
  }

  /** Position of a field in declaration order. */
  function Rank(f: Field): nat {
    match f
    case Ticker => 0
    case Open => 1
    case Close => 2
    case High => 3
    case Low => 4
    case Volume => 5
  }

  /** The fields among `fields` whose rule `s` violates, in the order given. */
  function CheckFields(s: Stock, fields: seq<Field>): (errs: seq<Field>)
    ensures forall f :: f in errs <==> f in fields && Violates(s, f)
    ensures |errs| <= |fields|
  {
    if fields == [] then []
    else (if Violates(s, fields[0]) then [fields[0]] else []) + CheckFields(s, fields[1..])
  }

  /** The validation results of a record: one entry per violated rule, with
      every property checked (validateAllProperties = true). */
  function Errors(s: Stock): (errs: seq<Field>)
    ensures forall f :: f in errs <==> Violates(s, f)
    ensures RankSorted(errs)
  {
    var errs := CheckFields(s, DeclaredFields);
    EveryFieldDeclared();
    OrderKept(s, DeclaredFields);
    errs
  }

  /** Strictly increasing in declaration order, hence without repeats. */
  predicate RankSorted(fs: seq<Field>) {
    forall i, j :: 0 <= i < j < |fs| ==> Rank(fs[i]) < Rank(fs[j])
  }

  /** Every field that carries a rule is among the declared ones. */
  lemma EveryFieldDeclared()
    ensures forall f: Field :: f in DeclaredFields
  {
    forall f: Field ensures f in DeclaredFields {
      assert DeclaredFields[Rank(f)] == f;
    }
  }

  /** CheckFields keeps the relative order of a rank-sorted field list. */
  lemma {:induction false} OrderKept(s: Stock, fields: seq<Field>)
    requires RankSorted(fields)
    ensures RankSorted(CheckFields(s, fields))
  {
    if fields != [] {
      OrderKept(s, fields[1..]);
      var rest := CheckFields(s, fields[1..]);
      forall f | f in rest ensures Rank(fields[0]) < Rank(f) {
        var j :| 0 <= j < |fields[1..]| && fields[1..][j] == f;
        assert fields[j + 1] == f;
      }
      var errs := CheckFields(s, fields);
      if Violates(s, fields[0]) {
        assert errs == [fields[0]] + rest;
        forall i, j | 0 <= i < j < |errs| ensures Rank(errs[i]) < Rank(errs[j]) {
          assert errs[j] == rest[j - 1] && errs[j] in rest;
          if i > 0 {
            assert errs[i] == rest[i - 1];
            assert Rank(rest[i - 1]) < Rank(rest[j - 1]);
          } else {
            assert errs[i] == fields[0];
          }
        }
      }
    }
  }

  /** TryValidateObject reports success exactly when its result list is empty. */
  lemma ValidIffNoErrors(s: Stock)
    ensures Valid(s) <==> Errors(s) == []
    ensures Valid(s) ==> s.ticker.Some?
  {
    if Errors(s) != [] {
      assert Errors(s)[0] in Errors(s);
    }
    if !Valid(s) {
      var f :| Violates(s, f);
      assert f in Errors(s);
    }
  }

  /** The number of validation results equals the number of violated rules. */
  lemma ErrorCount(s: Stock)
    ensures |Errors(s)| == |set f | f in DeclaredFields && Violates(s, f)|
  {
    var errs := Errors(s);
    var violated := set f | f in DeclaredFields && Violates(s, f);
    EveryFieldDeclared();
    assert violated == set f | f in errs;
    DistinctCard(errs);
  }

  /** A rank-sorted sequence has as many elements as its set of elements. */
  lemma {:induction false} DistinctCard(errs: seq<Field>)
    requires RankSorted(errs)
    ensures |set f | f in errs| == |errs|
  {
    if errs != [] {
      var rest := errs[1..];
      DistinctCard(rest);
      forall k | 0 <= k < |rest| ensures rest[k] != errs[0] {
        assert Rank(errs[0]) < Rank(errs[k + 1]);
      }
      assert (set f | f in errs) == {errs[0]} + (set f | f in rest);
    }
  }

  /** Neither the date nor the relative order of the prices affects validity. */
  lemma ValidityIgnoresDateAndPriceOrder(s: Stock, d: Date)
    requires !IsBlank(s.ticker)
    requires 0 <= s.high < s.low && 0 <= s.open && 0 <= s.close && 0 <= s.volume
    ensures Valid(s) && Valid(s.(date := d))
  {
  }

  /** The ErrorMessage of each rule (the default one for [Required]). */
  function Message(f: Field): (text: string)
    ensures |text| > 0 && text[|text| - 1] == '.'
  {
    match f
    case Ticker => "The Ticker field is required."
    case Open => "Open price must be non-negative."
    case Close => "Close price must be non-negative."
    case High => "High price must be non-negative."
    case Low => "Low price must be non-negative."
    case Volume => "Volume price must be non-negative."
  }

  /** `t` closes with `w`. */
  predicate EndsWith(t: string, w: string) {
    |w| <= |t| && t[|t| - |w|..] == w
  }

  /** `w` appears somewhere in `t` as a contiguous piece. */
  predicate Occurs(w: string, t: string) {
    exists j :: 0 <= j <= |t| && w <= t[j..]
  }

  /** string.Join("; ", parts): the text opens with the first part. */
  function Join(parts: seq<string>): (text: string)
    ensures parts != [] ==> parts[0] <= text
  {
    if parts == [] then []
    else if |parts| == 1 then parts[0]
    else parts[0] + "; " + Join(parts[1..])
  }

  /** Joining one more part appends the separator and that part, so the text
      is every part in order with "; " between neighbours. */
  lemma {:induction false} JoinAppend(parts: seq<string>, p: string)
    requires parts != []
    ensures Join(parts + [p]) == Join(parts) + "; " + p
  {
    var q := parts + [p];
    assert Join(q) == parts[0] + "; " + Join(q[1..]);
    if |parts| > 1 {
      assert q[1..] == parts[1..] + [p];
      JoinAppend(parts[1..], p);
      assert Join(parts) == parts[0] + "; " + Join(parts[1..]);
    } else {
      assert q[1..] == [p];
    }
  }

  /** The joined text closes with the last part. */
  lemma {:induction false} JoinEndsWithLast(parts: seq<string>)
    requires parts != []
    ensures EndsWith(Join(parts), parts[|parts| - 1])
  {
    if |parts| > 1 {
      JoinEndsWithLast(parts[1..]);
      assert parts[1..][|parts[1..]| - 1] == parts[|parts| - 1];
      EndsWithAfter(parts[0] + "; ", Join(parts[1..]), parts[|parts| - 1]);
    } else {
      assert Join(parts)[0..] == Join(parts);
    }
  }

  /** Putting text in front keeps the ending. */
  lemma EndsWithAfter(a: string, b: string, w: string)
    requires EndsWith(b, w)
    ensures EndsWith(a + b, w)
  {
    var t := a + b;
    forall i | 0 <= i < |w| ensures t[|t| - |w|..][i] == w[i] {
      assert t[|t| - |w| + i] == b[|b| - |w| + i];
    }
  }

  /** Every part appears in the joined text, after any text put in front of it. */
  lemma {:induction false} JoinListsEveryPart(parts: seq<string>, pre: string)
    ensures forall i :: 0 <= i < |parts| ==> Occurs(parts[i], pre + Join(parts))
  {
    if parts != [] {
      var t := pre + Join(parts);
      assert parts[0] <= t[|pre|..];
      if |parts| > 1 {
        var pre' := pre + parts[0] + "; ";
        JoinListsEveryPart(parts[1..], pre');
        assert pre' + Join(parts[1..]) == t;
        forall i | 1 <= i < |parts| ensures Occurs(parts[i], t) {
          assert parts[i] == parts[1..][i - 1];
        }
      }
    }
  }

  /** The messages of a list of fields, in order. */
  function Messages(errs: seq<Field>): (ms: seq<string>)
    ensures |ms| == |errs|
    ensures forall i :: 0 <= i < |errs| ==> ms[i] == Message(errs[i])
  {
    seq(|errs|, i requires 0 <= i < |errs| => Message(errs[i]))
  }

  /** The joined error text of TryValidateObject's results: empty exactly
      when there are none, otherwise opening with the first message and
      closing with the last one, full stop included. */
  function JoinMessages(errs: seq<Field>): (text: string)
    ensures errs == [] <==> text == []
    ensures errs != [] ==> Message(errs[0]) <= text
    ensures errs != [] ==> EndsWith(text, Message(errs[|errs| - 1]))
    ensures errs != [] ==> text[|text| - 1] == '.'
  {
    var ms := Messages(errs);
    if ms == [] then []
    else
      var last := ms[|ms| - 1];
      JoinEndsWithLast(ms);
      assert Join(ms)[|Join(ms)| - 1] == last[|last| - 1];
      assert ms[0] <= Join(ms) && |ms[0]| > 0;
      Join(ms)
  }

  /** Every message of the list appears in its joined text, after any text
      put in front of it. */
  lemma JoinListsEveryMessage(errs: seq<Field>, pre: string)
    ensures forall i :: 0 <= i < |errs| ==> Occurs(Message(errs[i]), pre + JoinMessages(errs))
  {
    JoinListsEveryPart(Messages(errs), pre);
  }
}
