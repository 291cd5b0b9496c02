# ValidationJS rule engine, modelled in Dafny

This project models the core of `js/validation_v1.0.js`, a small form-validation
library. A `Validation` object holds these parts:

- an ordered list of rules, each naming a target element, a rule type with its
  arguments, a message, a feedback element and an allow-empty flag;
- a catalog of rule types (`EMPTY`, `NUMBER`, `NUMBER_BETWEEN`, `NUMBER_MIN`,
  `NUMBER_MAX`, `MATCH`, `EMAIL`, `LENGTH_MIN`, `LENGTH_MAX`, `WORDS_MAX`,
  `WORDS_MIN`). Each type is a boolean test over the target's current value;
- `validate`, which reads every target in registration order. It rebuilds the
  list of failed rules and the overall flag from scratch, and can rewrite the
  feedback text.

The model has five modules:

- `Wrappers` (`wrappers.dfy`): the `Option` datatype.
- `Text` (`text.dfy`): JavaScript's `\s` whitespace and the private `trim`
  helper. It also holds the word split behind `WORDS_MIN` / `WORDS_MAX`, and a
  hand-written recognizer for the fixed e-mail pattern.
- `Controls` (`controls.dfy`): value resolution over an abstract `Control`
  datatype. An input, text area, select or other element becomes one
  constructor. A radio or checkbox input carries its named group as a
  sequence of (checked, value) members. `get_radio_value` and
  `get_checkbox_values` are loop methods proved against the functions
  `FirstChecked` and `CheckedValues`.
- `Catalog` (`catalog.dfy`): the rule types as a datatype whose fields are the
  rule arguments, and the pure function `Test`. JavaScript's `parseFloat`,
  `Number` and `String.prototype.match` come in through a `Runtime` value.
- `Validator` (`validation.dfy`): the `Validation` class with the fields
  `rules`, `failedRules`, `valid` and `summary`. Its methods are `Add`,
  `Validate`, `ClearFeedback`, `DisplayFeedback` and `DisplayFeedbackSummary`.
  - Feedback elements are abstract ids in a `Page` whose `html` field is a
    `map<Dest, string>`.
  - Each method's new state is stated through a specification function:
    `Failed`, `Cleared`, `WithFeedback`, `WithSummary` and `AfterValidate`.
  - Lemmas then prove what those functions promise.

Behaviour of the code that the model keeps, and how:

- **Reading a value or running a test can throw.** A rule type's test can
  throw on some values:
  - `.length` on null;
  - `.match`, or `.replace` inside `trim`, on a checkbox list.

  Reading the value of a select with no selected option throws before any
  test runs (`get_select_value`).

  The model turns each of these into a precondition (`Applicable`,
  `Resolvable`, `Evaluable`) rather than modelling the throw. It does not
  assume the tests always return.
- **`EMPTY` on a list.** `EMPTY` compares a checkbox list with `""` by loose
  equality, that is, through its comma-joined string. So a list holding one
  empty value is treated as empty (`Catalog.EmptyTest`).
- **Numeric bounds.** The `inclusive` argument is always true (`args[k] || true`),
  and `NUMBER_BETWEEN` undoes its own adjustment (`--min; ++min`). The results:
  - `NUMBER_BETWEEN` is strict at both ends;
  - `NUMBER_MIN` accepts anything above `min - 1`;
  - `NUMBER_MAX` accepts anything below `max + 1`, so fractional values just
    outside the bound pass (`Catalog.NumericBoundsOverreach`).

## Model

| member | source | states |
|---|---|---|
| Text.IsSpace | js/validation_v1.0.js:346 | JavaScript's `\s` class: space, tab, CR and LF are whitespace, and no letter or digit is |
| Text.IsSeparator | js/validation_v1.0.js:16 | the word-split class: space, CR and LF separate words, tab does not, and no letter or digit does |
| Text.Utf16Length | js/validation_v1.0.js:109 | a string's JavaScript length is at least its number of characters and at most twice it |
| Text.Utf16LengthBmp | js/validation_v1.0.js:109 | without characters above U+FFFF the JavaScript length equals the number of characters |
| Text.Utf16LengthAppend | js/validation_v1.0.js:109 | the JavaScript length of a concatenation is the sum of the lengths |
| Text.Utf16LengthAstral | js/validation_v1.0.js:109 | a single character above U+FFFF (a surrogate pair) has length two |
| Text.TrimStart | js/validation_v1.0.js:346 | the result is a suffix of the input, every removed character is whitespace, and the result does not start with whitespace |
| Text.TrimEnd | js/validation_v1.0.js:347-352 | the result is a prefix of its input, every removed character is whitespace, and the result does not end with whitespace |
| Text.Trim | js/validation_v1.0.js:345-354 | the backward scan that cuts after the last non-whitespace character returns exactly `Trimmed(s)` |
| Text.TrimmedSlice | js/validation_v1.0.js:345-354 | trim's result has no whitespace at either edge and is a contiguous slice `s[i..j]` of the input with only whitespace outside it |
| Text.TrimmedFixed | js/validation_v1.0.js:345-354 | an input with no edge whitespace is returned unchanged |
| Text.TrimIdempotent | js/validation_v1.0.js:345-354 | trimming twice gives the same string as trimming once |
| Text.Split | js/validation_v1.0.js:16 | splitting at the separator pattern always yields at least one chunk |
| Text.SplitChunks | js/validation_v1.0.js:16 | the split yields at least one chunk and no chunk contains a separator character |
| Text.SplitCount | js/validation_v1.0.js:16 | the number of chunks is the number of maximal separator runs plus one |
| Text.SplitTwo | js/validation_v1.0.js:16 | two separator-free words joined by one space split into exactly those two words |
| Text.WordCount | js/validation_v1.0.js:123-124 | the number of chunks of the trimmed value is never below one, even for a blank value |
| Text.WordCountRuns | js/validation_v1.0.js:120-134 | the word count is the number of maximal separator runs in the trimmed value plus one |
| Text.WordCountOneTwoThree | js/validation_v1.0.js:120-126 | "one two three" counts three words |
| Text.WordCountEmpty | js/validation_v1.0.js:128-134 | the empty string counts one word |
| Text.IndexOf | js/validation_v1.0.js:18 | the index of the first occurrence of a character, or the length when it does not occur |
| Text.IsEmail | js/validation_v1.0.js:18 | an accepted string has at least six characters (one local character, '@', one domain character, '.', two letters) |
| Text.EmailRecognizer | js/validation_v1.0.js:18 | the recognizer accepts a string exactly when an '@' and a final '.' cut it into a non-empty `[A-Za-z0-9._-]` part, a non-empty `[A-Za-z0-9.-]` part and 2 to 4 ASCII letters |
| Text.EmailFeatures | js/validation_v1.0.js:18 | every accepted string has that shape and exactly one '@' |
| Text.EmailAccepts | js/validation_v1.0.js:18 | "a@b.com" is accepted |
| Text.EmailRejects | js/validation_v1.0.js:18 | "not-an-email" is rejected |
| Controls.FirstChecked | js/validation_v1.0.js:297-306 | null exactly when no member of the group is checked, otherwise the value of the first checked member; never a list |
| Controls.GetRadioValue | js/validation_v1.0.js:297-306 | the scan with early return yields `FirstChecked` of the group |
| Controls.CheckedValues | js/validation_v1.0.js:308-320 | a value is in the result exactly when some checked member carries it, and the result is no longer than the group |
| Controls.CheckedValuesAppend | js/validation_v1.0.js:308-320 | the checked values keep group order: they distribute over concatenation of groups |
| Controls.GetCheckboxValues | js/validation_v1.0.js:308-320 | the pushing loop yields `CheckedValues` of the group |
| Controls.InputValue | js/validation_v1.0.js:273-291 | an input yields a list exactly when its type is checkbox, and a string from a non-radio input is its value attribute |
| Controls.TargetValue | js/validation_v1.0.js:255-295 | an element yields a list exactly when it is a checkbox input |
| Controls.TargetValueKinds | js/validation_v1.0.js:255-287 | only a checkbox input yields a list; other elements and unknown input types yield null; text areas and selects yield strings |
| Catalog.CommaJoin | js/validation_v1.0.js:24 | a non-empty list converts to all item characters plus one comma between each pair; a one-item list converts to its item, and a longer one starts with its first item and a comma |
| Catalog.ParsedFloat | js/validation_v1.0.js:31 | `parseFloat(null)` is NaN, and a one-item list parses as its only item |
| Catalog.NumberOf | js/validation_v1.0.js:32 | `isNaN` converts null to 0, and an empty or one-item list like the empty string or its only item |
| Catalog.Test | js/validation_v1.0.js:20-134 | EMPTY rejects null, and every numeric rule type rejects a value with no numeric prefix |
| Catalog.Length | js/validation_v1.0.js:109 | `value.length`: the item count of a list, between the character count and twice it for a string, and zero exactly for an empty string or list (see Catalog.LengthBounds) |
| Catalog.CommaJoinEmpty | js/validation_v1.0.js:24 | a list converts to the empty string exactly when it is empty or holds one empty string |
| Catalog.EmptyTest | js/validation_v1.0.js:21-26 | EMPTY holds exactly for a non-empty string, or for a list that is neither empty nor a single empty string; never for null |
| Catalog.NumberTest | js/validation_v1.0.js:28-34 | NUMBER holds exactly when the value parses to a non-zero number and converts as a whole; a value parsing to 0, and null, fail |
| Catalog.NumericBounds | js/validation_v1.0.js:36-90 | whatever `inclusive` is, BETWEEN accepts exactly `min < x < max`, MIN exactly `x > min - 1`, MAX exactly `x < max + 1`, and an unparsable value fails all three |
| Catalog.NumericBoundsOverreach | js/validation_v1.0.js:56-90 | 0.5 passes NUMBER_MIN(1) and NUMBER_MAX(0) but fails NUMBER_BETWEEN(0.5, 1) |
| Catalog.LengthBounds | js/validation_v1.0.js:106-118 | on a list LENGTH_MIN and LENGTH_MAX compare the item count; on a string they compare the UTF-16 length, which lies between the character count and twice it and equals the character count when no character lies above U+FFFF |
| Catalog.LengthAstral | js/validation_v1.0.js:106-118 | a single character above U+FFFF fails LENGTH_MAX(1) and passes LENGTH_MIN(2) |
| Catalog.LengthExamples | js/validation_v1.0.js:106-111 | LENGTH_MIN(5) accepts "hello" and rejects "hi" |
| Catalog.WordsTest | js/validation_v1.0.js:120-134 | WORDS_MAX(n) and WORDS_MIN(n) compare the number of separator runs of the trimmed value plus one against n |
| Catalog.WordsExamples | js/validation_v1.0.js:120-126 | WORDS_MAX(2) rejects "one two three" and accepts "one two" |
| Catalog.EmailTest | js/validation_v1.0.js:99-104 | EMAIL accepts exactly the strings of the e-mail shape |
| Catalog.EmailExamples | js/validation_v1.0.js:99-104 | EMAIL accepts "a@b.com" and rejects "not-an-email" |
| Validator.Blank | js/validation_v1.0.js:161 | a value is blank exactly when it is null or its JavaScript length is zero |
| Validator.Fails | js/validation_v1.0.js:161-162 | a rule that does not allow empty values fails on a blank value; a rule that allows them, or any rule on a non-blank value, fails exactly when its test does not hold |
| Validator.Failed | js/validation_v1.0.js:155-167 | the failed list is no longer than the rule list and holds only registered rules |
| Validator.FailedMembers | js/validation_v1.0.js:155-167 | a rule is in the failed list exactly when it is registered and fails its check |
| Validator.FailedAppend | js/validation_v1.0.js:155-167 | the failed list keeps registration order: it distributes over concatenation of rule lists |
| Validator.FailedExample | js/validation_v1.0.js:155-167 | rules A (failing), B (passing) and C (failing) give the failed list [A, C] |
| Validator.ShortCircuit | js/validation_v1.0.js:161-162 | a rule that does not allow empty values fails on null or zero length whatever its type; with allow-empty set, or on a non-blank value, the test alone decides |
| Validator.RulesForMembers | js/validation_v1.0.js:226-231 | the rules written to a feedback element are exactly the failed rules naming it |
| Validator.MessagesAppend | js/validation_v1.0.js:226-231 | the appended feedback text of two lists of rules is the concatenation of their texts |
| Validator.FeedbackUntouched | js/validation_v1.0.js:169-173 | validating with feedback keeps the set of elements and leaves every element that is neither a rule destination nor the summary unchanged |
| Validator.FeedbackAtDest | js/validation_v1.0.js:169-173 | afterwards a rule destination other than the summary holds exactly the messages, each followed by "; ", of the failed rules naming it, in order |
| Validator.FeedbackAtSummary | js/validation_v1.0.js:233-242 | afterwards the summary holds every failed message followed by "; ", in order, after the messages aimed at it when it is also a rule destination |
| Validator.FeedbackAllClear | js/validation_v1.0.js:244-253 | when no rule fails, every rule destination and the summary end up empty |
| Validator.FeedbackIdempotent | js/validation_v1.0.js:169-173 | rewriting the feedback a second time with the same failed list leaves the page as the first time |
| Validator.Validation.constructor | js/validation_v1.0.js:8-14 | a new object has no rules, no failed rules, `valid` false and no summary element |
| Validator.Validation.Add | js/validation_v1.0.js:138-148 | exactly one rule is appended at the end, earlier rules are unchanged, duplicates are kept, and allow-empty defaults to false |
| Validator.Validation.ClearFeedback | js/validation_v1.0.js:244-253 | every rule destination and the summary become empty; other elements are unchanged |
| Validator.Validation.DisplayFeedback | js/validation_v1.0.js:226-231 | each element gains the messages of the failed rules naming it, each followed by "; ", in order |
| Validator.Validation.DisplayFeedbackSummary | js/validation_v1.0.js:233-242 | without a summary nothing changes; with one it gains every failed message followed by "; ", in order |
| Validator.Validation.Validate | js/validation_v1.0.js:150-176 | the failed list is rebuilt as `Failed(rules)`, the result equals `valid` and is true exactly when nothing failed, the page is untouched without feedback and becomes `AfterValidate` of the old page with it |
| Validator.ValidateTwice | js/validation_v1.0.js:150-176 | validating twice with unchanged values returns the same result, the same failed list and the same page as validating once |

## Left out

- DOM event wiring is not modelled: `auto_validate`, `collectionToArray`,
  `add_change_listeners` and `addEvent` (js/validation_v1.0.js:179-224,
  322-343). It only registers browser callbacks.
- DOM reads are replaced by data:
  - the `Control` datatype and a `Document` function from target handles to
    controls stand in for them;
  - `document.getElementsByName` becomes the group carried by the input;
  - `get_text_value` and `get_select_value` are folded into
    `Controls.TargetValue`.
- `innerHTML` is a plain string. HTML parsing and escaping of messages are not
  modelled. The feedback methods require their elements to be on the page
  (`OnPage`).
- Floating point is not modelled:
  - `parseFloat` and `Number` (as used by `isNaN`) are abstract functions to
    `Option<real>`, with None for NaN;
  - `--min; ++min` and the `min - 1`, `max + 1` adjustments are exact on
    reals. In IEEE doubles they are not a no-op for many ordinary fractional
    bounds: `(0.1 - 1) + 1` is `0.09999999999999998`. So `NUMBER_BETWEEN(0.1, 1)`
    accepts "0.1" in the source but not in the model;
  - rule arguments are reals, so the string-to-number coercion that `--` and
    `++` apply to string arguments is not modelled.
- `MATCH` takes a caller-supplied regular expression. Its result comes from an
  abstract matcher in `Runtime`, because modelling it needs a regex engine.
- Arguments are fields of the rule type. A missing or ill-typed argument list
  cannot be expressed.
- Exceptions are preconditions, not error results:
  - `Applicable` covers a null or list value reaching `.length`, `.match` or
    `trim`;
  - `Resolvable` covers a select with no selected option;
  - `Validate` requires every rule to be `Evaluable`, so the partly rebuilt
    failed list and flag that a throw in the middle of the loop leaves behind
    are not modelled.
- Unknown rule-type names cannot occur, because the rule types form a closed
  datatype.
- The `console` shim, `console.log`, the unused `word_match_pattern` and the
  implicit global `parsedValue` have no observable effect on validation.
- `summary_element` has no setter in the source. The `summary` field is
  assigned directly, as callers of the source do.
- Catalog.NumericBounds: states the bounds over exact reals, not over IEEE
  doubles, for the reason in the floating-point line above.
- Text.EmailRecognizer is a hand-written recognizer for the one fixed e-mail
  pattern. It is not derived from a general regex semantics.
- Validator.ValidateTwice covers only an unchanged document and runtime. Values
  that change between the two calls are outside its statement.
