/** The predicate catalog (`this.types`): a closed set of rule types, each a
    boolean test over a resolved value. The argument list a rule was registered
    with becomes the fields of its rule type. */
module Catalog {
  import opened Wrappers
  import opened Text
  import opened Controls

  /** Handle of a caller-supplied regular expression, as given to MATCH. */
  type Pattern = nat

  /** The rule types; their arguments in the order the source reads `args`. */
  datatype RuleType =
    | EMPTY
    | NUMBER
    | NUMBER_BETWEEN(min: real, max: real, inclusive: bool)
    | NUMBER_MIN(min: real, inclusive: bool)
    | NUMBER_MAX(max: real, inclusive: bool)
    | MATCH(pattern: Pattern)
    | EMAIL
    | LENGTH_MIN(minLength: int)
    | LENGTH_MAX(maxLength: int)
    | WORDS_MAX(maxWords: int)
    | WORDS_MIN(minWords: int)

  /** What the JavaScript runtime supplies to the tests: `parseFloat` (longest
      numeric prefix), `Number` (whole-string conversion, used by `isNaN`), with
      None standing for NaN, and `String.prototype.match` for MATCH patterns. */
  datatype Runtime = Runtime(
    parseFloat: string -> Option<real>,
    toNumber: string -> Option<real>,
    matches: (Pattern, string) -> bool)

  /** The total number of characters in the items. */
  function TotalLength(items: seq<string>): nat {
    if items == [] then 0 else |items[0]| + TotalLength(items[1..])
  }

  /** `Array.prototype.toString`: the items joined with commas. A non-empty
      list gives all item characters plus one comma between each pair, starting
      with the first item, followed by a comma when there is a second. */
  function CommaJoin(items: seq<string>): (r: string)
    ensures items != [] ==> |r| == TotalLength(items) + |items| - 1
    ensures |items| == 1 ==> r == items[0]
    ensures |items| >= 2 ==> items[0] + "," <= r
  {
    if |items| == 0 then ""
    else if |items| == 1 then items[0]
    else items[0] + "," + CommaJoin(items[1..])
  }

  /** A list converts to the empty string exactly when it is empty or holds one empty string. */
  lemma CommaJoinEmpty(items: seq<string>)
    ensures CommaJoin(items) == "" <==> |items| == 0 || (|items| == 1 && items[0] == "")
  {
    if |items| >= 2 {
      assert CommaJoin(items)[|items[0]|] == ',';
    }
  }

  /** `parseFloat(value)`: null has no numeric prefix; a list is converted by toString. */
  function ParsedFloat(v: Value, rt: Runtime): (r: Option<real>)
    ensures v.Null? ==> r.None?
    ensures v.List? && |v.items| == 1 ==> r == rt.parseFloat(v.items[0])
  {
    match v
    case Null => None
    case Str(s) => rt.parseFloat(s)
    case List(items) => rt.parseFloat(CommaJoin(items))
  }

  /** `Number(value)`, as `isNaN(value)` sees it: null converts to 0. */
  function NumberOf(v: Value, rt: Runtime): (r: Option<real>)
    ensures v.Null? ==> r == Some(0.0)
    ensures v.List? && |v.items| <= 1 ==> r == rt.toNumber(if v.items == [] then "" else v.items[0])
  {
    match v
    case Null => Some(0.0)
    case Str(s) => rt.toNumber(s)
    case List(items) => rt.toNumber(CommaJoin(items))
  }

  /** `value.length`: UTF-16 code units of a string, items of a list. */
  function Length(v: Value): (n: nat)
    requires !v.Null?
    ensures v.List? ==> n == |v.items|
    ensures v.Str? ==> |v.s| <= n <= 2 * |v.s|
    ensures n == 0 <==> (v.Str? && v.s == []) || (v.List? && v.items == [])
  {
    if v.Str? then Utf16Length(v.s) else |v.items|
  }

  /** The test runs without throwing: `.length` needs a non-null value, and
      `.match` / `.replace` (inside trim) need a string. */
  predicate Applicable(t: RuleType, v: Value) {
    match t
    case MATCH(_) => v.Str?
    case EMAIL => v.Str?
    case WORDS_MAX(_) => v.Str?
    case WORDS_MIN(_) => v.Str?
    case LENGTH_MIN(_) => !v.Null?
    case LENGTH_MAX(_) => !v.Null?
    case _ => true
  }

  /** `rule.type.test(value, args)`. */
  function Test(t: RuleType, v: Value, rt: Runtime): (r: bool)
    requires Applicable(t, v)
    ensures t.EMPTY? && v.Null? ==> !r
    ensures (t.NUMBER? || t.NUMBER_BETWEEN? || t.NUMBER_MIN? || t.NUMBER_MAX?) && ParsedFloat(v, rt).None? ==> !r
  {
    match t
    case EMPTY =>
      // value != null && value != "" && value.length != 0, with == on a list
      // comparing its comma-joined string
      (match v
       case Null => false
       case Str(s) => s != ""
       case List(items) => CommaJoin(items) != "" && |items| != 0)
    case NUMBER =>
      (match ParsedFloat(v, rt)
       case None => false
       case Some(x) => x != 0.0 && NumberOf(v, rt).Some?)
    case NUMBER_BETWEEN(min, max, inclusive) =>
      (match ParsedFloat(v, rt)
       case None => false
       case Some(x) =>
        var incl := inclusive || true;
        var lo := if incl then (min - 1.0) + 1.0 else min;
        lo < x && x < max)
    case NUMBER_MIN(min, inclusive) =>
      (match ParsedFloat(v, rt)
       case None => false
       case Some(x) =>
        var incl := inclusive || true;
        var lo := if incl then min - 1.0 else min;
        x > lo)
    case NUMBER_MAX(max, inclusive) =>
      (match ParsedFloat(v, rt)
       case None => false
       case Some(x) =>
        var incl := inclusive || true;
        var hi := if incl then max + 1.0 else max;
        x < hi)
    case MATCH(p) => rt.matches(p, v.s)
    case EMAIL => IsEmail(v.s)
    case LENGTH_MIN(n) => Length(v) >= n
    case LENGTH_MAX(n) => Length(v) <= n
    case WORDS_MAX(n) => WordCount(v.s) <= n
    case WORDS_MIN(n) => WordCount(v.s) >= n
  }

  /** EMPTY holds exactly for a non-empty string, and for a list unless it is
      empty or its only item is the empty string. */
  lemma EmptyTest(v: Value, rt: Runtime)
    ensures Test(EMPTY, v, rt) <==> (match v
                                     case Null => false
                                     case Str(s) => s != ""
                                     case List(items) => !(|items| == 0 || (|items| == 1 && items[0] == "")))
  {
    if v.List? {
      CommaJoinEmpty(v.items);
    }
  }

  /** NUMBER holds exactly when the value parses to a non-zero number and the
      whole value is numeric, so a value parsing to 0 fails. */
  lemma NumberTest(v: Value, rt: Runtime)
    ensures Test(NUMBER, v, rt) <==> exists x :: ParsedFloat(v, rt) == Some(x) && x != 0.0 && NumberOf(v, rt).Some?
    ensures ParsedFloat(v, rt) == Some(0.0) ==> !Test(NUMBER, v, rt)
    ensures v.Null? ==> !Test(NUMBER, v, rt)
  {
    if Test(NUMBER, v, rt) {
      assert ParsedFloat(v, rt) == Some(ParsedFloat(v, rt).value);
    }
  }

  /** The numeric bounds: the inclusive flag changes nothing, BETWEEN is strict
      at both ends, MIN accepts above min - 1 and MAX below max + 1, and an
      unparsable value fails all three. */
  lemma NumericBounds(v: Value, rt: Runtime, a: real, b: real, inclusive: bool)
    ensures Test(NUMBER_BETWEEN(a, b, inclusive), v, rt)
            <==> ParsedFloat(v, rt).Some? && a < ParsedFloat(v, rt).value < b
    ensures Test(NUMBER_MIN(a, inclusive), v, rt)
            <==> ParsedFloat(v, rt).Some? && ParsedFloat(v, rt).value > a - 1.0
    ensures Test(NUMBER_MAX(b, inclusive), v, rt)
            <==> ParsedFloat(v, rt).Some? && ParsedFloat(v, rt).value < b + 1.0
  {
  }

  /** Because the bounds are widened by one rather than made inclusive, a
      fractional value just outside the range passes NUMBER_MIN and NUMBER_MAX. */
  lemma NumericBoundsOverreach(v: Value, rt: Runtime)
    requires ParsedFloat(v, rt) == Some(0.5)
    ensures Test(NUMBER_MIN(1.0, true), v, rt)
    ensures Test(NUMBER_MAX(0.0, true), v, rt)
    ensures !Test(NUMBER_BETWEEN(0.5, 1.0, true), v, rt)
  {
  }

  /** The word bounds compare the number of separator runs in the trimmed
      string, plus one, against the bound. */
  lemma WordsTest(s: string, n: int, rt: Runtime)
    ensures Test(WORDS_MAX(n), Str(s), rt) <==> RunCount(Trimmed(s)) + 1 <= n
    ensures Test(WORDS_MIN(n), Str(s), rt) <==> RunCount(Trimmed(s)) + 1 >= n
  {
    var w := WordCount(s);
    assert Test(WORDS_MAX(n), Str(s), rt) == (w <= n);
    assert Test(WORDS_MIN(n), Str(s), rt) == (w >= n);
    WordCountRuns(s);
  }

  /** EMAIL accepts exactly the strings with the shape of the e-mail pattern. */
  lemma EmailTest(s: string, rt: Runtime)
    ensures Test(EMAIL, Str(s), rt) <==> exists at, dot :: EmailParts(s, at, dot)
  {
    EmailRecognizer(s);
  }

  /** The length bounds count list items, and for strings UTF-16 code units:
      at least the number of characters and at most twice it, exactly it when
      no character lies above U+FFFF. */
  lemma LengthBounds(v: Value, n: int, rt: Runtime)
    requires !v.Null?
    ensures v.List? ==> (Test(LENGTH_MIN(n), v, rt) <==> |v.items| >= n)
    ensures v.List? ==> (Test(LENGTH_MAX(n), v, rt) <==> |v.items| <= n)
    ensures v.Str? && |v.s| >= n ==> Test(LENGTH_MIN(n), v, rt)
    ensures v.Str? && 2 * |v.s| < n ==> !Test(LENGTH_MIN(n), v, rt)
    ensures v.Str? && 2 * |v.s| <= n ==> Test(LENGTH_MAX(n), v, rt)
    ensures v.Str? && |v.s| > n ==> !Test(LENGTH_MAX(n), v, rt)
    ensures v.Str? && (forall i :: 0 <= i < |v.s| ==> v.s[i] <= '\U{FFFF}')
            ==> (Test(LENGTH_MIN(n), v, rt) <==> |v.s| >= n) && (Test(LENGTH_MAX(n), v, rt) <==> |v.s| <= n)
  {
    if v.Str? && forall i :: 0 <= i < |v.s| ==> v.s[i] <= '\U{FFFF}' {
      Utf16LengthBmp(v.s);
    }
  }

  /** A single character above U+FFFF has length two: LENGTH_MAX(1) rejects it
      and LENGTH_MIN(2) accepts it. */
  lemma LengthAstral(rt: Runtime)
    ensures !Test(LENGTH_MAX(1), Str("\U{1F600}"), rt)
    ensures Test(LENGTH_MIN(2), Str("\U{1F600}"), rt)
  {
    Utf16LengthAstral();
  }

  /** LENGTH_MIN(5) accepts "hello" and rejects "hi". */
  lemma LengthExamples(rt: Runtime)
    ensures Test(LENGTH_MIN(5), Str("hello"), rt)
    ensures !Test(LENGTH_MIN(5), Str("hi"), rt)
  {
    LengthBounds(Str("hello"), 5, rt);
    LengthBounds(Str("hi"), 5, rt);
  }

  /** WORDS_MAX(2) rejects "one two three" and accepts "one two". */
  lemma WordsExamples(rt: Runtime)
    ensures !Test(WORDS_MAX(2), Str("one two three"), rt)
    ensures Test(WORDS_MAX(2), Str("one two"), rt)
  {
    WordCountOneTwoThree();
    WordCountOneTwo();
  }

  /** EMAIL accepts "a@b.com" and rejects "not-an-email". */
  lemma EmailExamples(rt: Runtime)
    ensures Test(EMAIL, Str("a@b.com"), rt)
    ensures !Test(EMAIL, Str("not-an-email"), rt)
  {
    EmailAccepts();
    EmailRejects();
  }
}
