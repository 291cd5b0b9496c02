/** The rule registry and evaluator (`Validation`): rules are appended by
    `add`; `validate` re-reads every target, rebuilds the ordered list of failed
    rules and the overall flag, and optionally rewrites the feedback text. */
module Validator {
  import opened Wrappers
  import opened Controls
  import opened Catalog

  /** Handle of the element a rule reads its value from. */
  type Target = nat

  /** Handle of an element whose content receives feedback text. */
  type Dest = nat

  /** The record `add` builds; never changed after registration. */
  datatype Rule = Rule(target: Target, ruleType: RuleType, message: string, feedback: Dest, allowEmpty: bool)

  /** The current state of every target element, as value resolution reads it. */
  type Document = Target -> Control

  /** `value == null || value.length == 0` */
  predicate Blank(v: Value): (b: bool)
    ensures b <==> v.Null? || Length(v) == 0
  {
    match v
    case Null => true
    case Str(s) => s == ""
    case List(items) => items == []
  }

  /** The empty short-circuit: a rule that does not allow empty values fails on
      a blank value without its test being run. */
  predicate ShortCircuits(r: Rule, v: Value) {
    !r.allowEmpty && Blank(v)
  }

  /** Evaluating the rule does not throw: its target can be read and, unless the
      short-circuit fires, its test accepts the value's kind. */
  predicate Evaluable(r: Rule, doc: Document) {
    Resolvable(doc(r.target))
    && (ShortCircuits(r, TargetValue(doc(r.target))) || Applicable(r.ruleType, TargetValue(doc(r.target))))
  }

  predicate AllEvaluable(rs: seq<Rule>, doc: Document) {
    forall r :: r in rs ==> Evaluable(r, doc)
  }

  /** The condition `validate` checks for one rule. */
  predicate Fails(r: Rule, doc: Document, rt: Runtime): (b: bool)
    requires Evaluable(r, doc)
    ensures !r.allowEmpty && Blank(TargetValue(doc(r.target))) ==> b
    ensures !b ==> Test(r.ruleType, TargetValue(doc(r.target)), rt)
    ensures r.allowEmpty || !Blank(TargetValue(doc(r.target)))
            ==> (b <==> !Test(r.ruleType, TargetValue(doc(r.target)), rt))
  {
    var v := TargetValue(doc(r.target));
    ShortCircuits(r, v) || !Test(r.ruleType, v, rt)
  }

  /** The rules of rs that fail, in registration order. */
  function Failed(rs: seq<Rule>, doc: Document, rt: Runtime): (f: seq<Rule>)
    requires AllEvaluable(rs, doc)
    ensures |f| <= |rs|
    ensures forall r :: r in f ==> r in rs
  {
    if rs == [] then []
    else
      var last := rs[|rs| - 1];
      Failed(rs[..|rs| - 1], doc, rt) + (if Fails(last, doc, rt) then [last] else [])
  }

  /** A rule is in the failed list exactly when it is registered and fails. */
  lemma {:induction false} FailedMembers(rs: seq<Rule>, doc: Document, rt: Runtime)
    requires AllEvaluable(rs, doc)
    ensures forall r :: r in Failed(rs, doc, rt) <==> r in rs && Fails(r, doc, rt)
  {
    if rs != [] {
      var prefix := rs[..|rs| - 1];
      assert rs == prefix + [rs[|rs| - 1]];
      FailedMembers(prefix, doc, rt);
    }
  }

  /** The failed list keeps registration order: it distributes over concatenation. */
  lemma {:induction false} FailedAppend(a: seq<Rule>, b: seq<Rule>, doc: Document, rt: Runtime)
    requires AllEvaluable(a, doc) && AllEvaluable(b, doc)
    ensures AllEvaluable(a + b, doc)
    ensures Failed(a + b, doc, rt) == Failed(a, doc, rt) + Failed(b, doc, rt)
    decreases |b|
  {
    if b == [] {
      assert a + b == a;
    } else {
      var b' := b[..|b| - 1];
      assert (a + b)[..|a + b| - 1] == a + b';
      FailedAppend(a, b', doc, rt);
    }
  }

  lemma FailedSnoc(rs: seq<Rule>, r: Rule, doc: Document, rt: Runtime)
    requires AllEvaluable(rs, doc) && Evaluable(r, doc)
    ensures AllEvaluable(rs + [r], doc)
    ensures Failed(rs + [r], doc, rt) == Failed(rs, doc, rt) + (if Fails(r, doc, rt) then [r] else [])
  {
    assert (rs + [r])[..|rs|] == rs;
  }

  /** Rules A (failing), B (passing), C (failing) give the failed list [A, C]. */
  lemma FailedExample(a: Rule, b: Rule, c: Rule, doc: Document, rt: Runtime)
    requires Evaluable(a, doc) && Evaluable(b, doc) && Evaluable(c, doc)
    requires Fails(a, doc, rt) && !Fails(b, doc, rt) && Fails(c, doc, rt)
    ensures AllEvaluable([a, b, c], doc)
    ensures Failed([a, b, c], doc, rt) == [a, c]
  {
    FailedSnoc([], a, doc, rt);
    assert [] + [a] == [a];
    FailedSnoc([a], b, doc, rt);
    assert [a] + [b] == [a, b];
    FailedSnoc([a, b], c, doc, rt);
    assert [a, b] + [c] == [a, b, c];
  }

  /** A rule that does not allow empty values always fails on a null or
      zero-length value, whatever its type; one that allows them, and any rule
      on a non-blank value, is decided by its test alone. */
  lemma ShortCircuit(r: Rule, doc: Document, rt: Runtime)
    requires Evaluable(r, doc)
    ensures !r.allowEmpty && Blank(TargetValue(doc(r.target))) ==> Fails(r, doc, rt)
    ensures r.allowEmpty ==> (Fails(r, doc, rt) <==> !Test(r.ruleType, TargetValue(doc(r.target)), rt))
    ensures !Blank(TargetValue(doc(r.target))) ==> (Fails(r, doc, rt) <==> !Test(r.ruleType, TargetValue(doc(r.target)), rt))
  {
  }

  /** The rules of rs whose feedback destination is d, in order. */
  function RulesFor(rs: seq<Rule>, d: Dest): seq<Rule> {
    if rs == [] then []
    else
      var last := rs[|rs| - 1];
      RulesFor(rs[..|rs| - 1], d) + (if last.feedback == d then [last] else [])
  }

  /** RulesFor keeps exactly the rules aimed at d. */
  lemma {:induction false} RulesForMembers(rs: seq<Rule>, d: Dest)
    ensures forall r :: r in RulesFor(rs, d) <==> r in rs && r.feedback == d
  {
    if rs != [] {
      assert rs == rs[..|rs| - 1] + [rs[|rs| - 1]];
      RulesForMembers(rs[..|rs| - 1], d);
    }
  }

  /** The text `display_feedback` appends for rs: each message followed by "; ". */
  function Messages(rs: seq<Rule>): string {
    if rs == [] then ""
    else Messages(rs[..|rs| - 1]) + Entry(rs[|rs| - 1])
  }

  /** What one failed rule adds to an element: its message followed by "; ". */
  function Entry(r: Rule): string {
    r.message + "; "
  }

  lemma MessagesSnoc(rs: seq<Rule>, r: Rule)
    ensures Messages(rs + [r]) == Messages(rs) + Entry(r)
  {
    assert (rs + [r])[..|rs|] == rs;
  }

  /** The feedback text of a concatenation is the concatenation of the texts. */
  lemma {:induction false} MessagesAppend(a: seq<Rule>, b: seq<Rule>)
    ensures Messages(a + b) == Messages(a) + Messages(b)
    decreases |b|
  {
    if b == [] {
      assert a + b == a;
    } else {
      var b' := b[..|b| - 1];
      var r := b[|b| - 1];
      assert a + b == (a + b') + [r];
      MessagesSnoc(a + b', r);
      MessagesAppend(a, b');
      MessagesSnoc(b', r);
      AppendAssoc(Messages(a), Messages(b'), Entry(r));
      assert b == b' + [r];
    }
  }


  /** The feedback destinations of rs. */
  function Dests(rs: seq<Rule>): set<Dest> {
    set r | r in rs :: r.feedback
  }

  /** The text `display_feedback` appends to destination d for the failed list:
      the messages of the failed rules aimed at d, in order. */
  function FeedbackText(failed: seq<Rule>, d: Dest): string {
    Messages(RulesFor(failed, d))
  }

  lemma RulesForSnoc(rs: seq<Rule>, r: Rule, d: Dest)
    ensures RulesFor(rs + [r], d) == RulesFor(rs, d) + (if r.feedback == d then [r] else [])
  {
    assert (rs + [r])[..|rs|] == rs;
  }

  lemma FeedbackTextSnoc(rs: seq<Rule>, r: Rule, d: Dest)
    ensures r.feedback == d ==> FeedbackText(rs + [r], d) == FeedbackText(rs, d) + Entry(r)
    ensures r.feedback != d ==> FeedbackText(rs + [r], d) == FeedbackText(rs, d)
  {
    RulesForSnoc(rs, r, d);
    var x := RulesFor(rs, d);
    if r.feedback == d {
      MessagesSnoc(x, r);
    } else {
      assert x + [] == x;
    }
  }

  lemma {:induction false} RulesForNone(rs: seq<Rule>, d: Dest)
    requires forall r :: r in rs ==> r.feedback != d
    ensures RulesFor(rs, d) == []
  {
    if rs != [] {
      assert rs[|rs| - 1] in rs;
      RulesForNone(rs[..|rs| - 1], d);
    }
  }

  /** No failed rule writes to a destination none of the rules names. */
  lemma FeedbackTextOutside(rules: seq<Rule>, failed: seq<Rule>, d: Dest)
    requires forall r :: r in failed ==> r in rules
    requires d !in Dests(rules)
    ensures FeedbackText(failed, d) == ""
  {
    forall r | r in failed
      ensures r.feedback != d
    {
      assert r.feedback in Dests(rules);
    }
    RulesForNone(failed, d);
  }

  /** The page after `clear_feedback`: every rule's destination and the summary emptied. */
  function Cleared(html: map<Dest, string>, rs: seq<Rule>, summary: Option<Dest>): map<Dest, string> {
    map d | d in html :: if d in Dests(rs) || summary == Some(d) then "" else html[d]
  }

  /** The page after `display_feedback`. */
  function WithFeedback(html: map<Dest, string>, failed: seq<Rule>): map<Dest, string> {
    map d | d in html :: html[d] + FeedbackText(failed, d)
  }

  /** The page after `display_feedback_summary`. */
  function WithSummary(html: map<Dest, string>, failed: seq<Rule>, summary: Option<Dest>): map<Dest, string> {
    if summary.Some? && summary.value in html then html[summary.value := html[summary.value] + Messages(failed)]
    else html
  }

  /** The page after `validate(true)`: cleared, then per-rule feedback, then the summary. */
  function AfterValidate(html: map<Dest, string>, rules: seq<Rule>, failed: seq<Rule>, summary: Option<Dest>): map<Dest, string> {
    WithSummary(WithFeedback(Cleared(html, rules, summary), failed), failed, summary)
  }

  /** One element after `validate(true)`: emptied if some rule or the summary
      targets it, then the messages aimed at it, then, for the summary, all
      failed messages. */
  lemma AfterValidateAt(html: map<Dest, string>, rules: seq<Rule>, failed: seq<Rule>, summary: Option<Dest>, d: Dest)
    requires d in html
    ensures d in AfterValidate(html, rules, failed, summary)
    ensures AfterValidate(html, rules, failed, summary)[d]
            == (if d in Dests(rules) || summary == Some(d) then "" else html[d])
               + FeedbackText(failed, d)
               + (if summary == Some(d) then Messages(failed) else "")
  {
    var c := Cleared(html, rules, summary);
    var w := WithFeedback(c, failed);
    assert w[d] == c[d] + FeedbackText(failed, d);
  }

  /** `validate(true)` keeps the set of elements and leaves alone every element
      that is neither a rule destination nor the summary. */
  lemma FeedbackUntouched(html: map<Dest, string>, rules: seq<Rule>, failed: seq<Rule>, summary: Option<Dest>)
    requires forall r :: r in failed ==> r in rules
    ensures AfterValidate(html, rules, failed, summary).Keys == html.Keys
    ensures forall d :: d in html && d !in Dests(rules) && summary != Some(d)
                        ==> AfterValidate(html, rules, failed, summary)[d] == html[d]
  {
    var m := AfterValidate(html, rules, failed, summary);
    forall d | d in html
      ensures d in m
      ensures d !in Dests(rules) && summary != Some(d) ==> m[d] == html[d]
    {
      UntouchedAt(html, rules, failed, summary, d);
    }
    assert m.Keys == html.Keys;
  }

  lemma UntouchedAt(html: map<Dest, string>, rules: seq<Rule>, failed: seq<Rule>, summary: Option<Dest>, d: Dest)
    requires forall r :: r in failed ==> r in rules
    requires d in html
    ensures d in AfterValidate(html, rules, failed, summary)
    ensures d !in Dests(rules) && summary != Some(d) ==> AfterValidate(html, rules, failed, summary)[d] == html[d]
  {
    AfterValidateAt(html, rules, failed, summary, d);
    if d !in Dests(rules) && summary != Some(d) {
      FeedbackTextOutside(rules, failed, d);
      assert html[d] + "" + "" == html[d];
    }
  }

  /** After `validate(true)` a rule destination other than the summary holds
      exactly the messages of the failed rules aimed at it, in order. */
  lemma FeedbackAtDest(html: map<Dest, string>, rules: seq<Rule>, failed: seq<Rule>, summary: Option<Dest>, d: Dest)
    requires d in html && d in Dests(rules) && summary != Some(d)
    ensures d in AfterValidate(html, rules, failed, summary)
    ensures AfterValidate(html, rules, failed, summary)[d] == FeedbackText(failed, d)
  {
    AfterValidateAt(html, rules, failed, summary, d);
    var t := FeedbackText(failed, d);
    assert "" + t + "" == t;
  }

  /** After `validate(true)` the summary holds every failed message in order,
      after the messages aimed at it when it is also a rule destination. */
  lemma FeedbackAtSummary(html: map<Dest, string>, rules: seq<Rule>, failed: seq<Rule>, s: Dest)
    requires forall r :: r in failed ==> r in rules
    requires s in html
    ensures s in AfterValidate(html, rules, failed, Some(s))
    ensures AfterValidate(html, rules, failed, Some(s))[s] == FeedbackText(failed, s) + Messages(failed)
    ensures s !in Dests(rules) ==> AfterValidate(html, rules, failed, Some(s))[s] == Messages(failed)
  {
    AfterValidateAt(html, rules, failed, Some(s), s);
    var t := FeedbackText(failed, s);
    assert "" + t == t;
    if s !in Dests(rules) {
      FeedbackTextOutside(rules, failed, s);
      assert "" + Messages(failed) == Messages(failed);
    }
  }

  /** When no rule fails, `validate(true)` leaves every rule destination and the summary empty. */
  lemma FeedbackAllClear(html: map<Dest, string>, rules: seq<Rule>, summary: Option<Dest>, d: Dest)
    requires d in html && (d in Dests(rules) || summary == Some(d))
    ensures d in AfterValidate(html, rules, [], summary)
    ensures AfterValidate(html, rules, [], summary)[d] == ""
  {
    AfterValidateAt(html, rules, [], summary, d);
    assert FeedbackText([], d) == "" && Messages([]) == "";
  }

  /** Validating again with unchanged values rewrites exactly the same feedback. */
  lemma FeedbackIdempotent(html: map<Dest, string>, rules: seq<Rule>, failed: seq<Rule>, summary: Option<Dest>)
    requires forall r :: r in failed ==> r in rules
    ensures AfterValidate(AfterValidate(html, rules, failed, summary), rules, failed, summary)
            == AfterValidate(html, rules, failed, summary)
  {
    var once := AfterValidate(html, rules, failed, summary);
    var twice := AfterValidate(once, rules, failed, summary);
    FeedbackUntouched(html, rules, failed, summary);
    FeedbackUntouched(once, rules, failed, summary);
    forall d | d in html
      ensures twice[d] == once[d]
    {
      AfterValidateAt(html, rules, failed, summary, d);
      AfterValidateAt(once, rules, failed, summary, d);
    }
  }

  lemma ClearedSnoc(html: map<Dest, string>, rs: seq<Rule>, r: Rule)
    requires r.feedback in html
    ensures Cleared(html, rs + [r], None) == Cleared(html, rs, None)[r.feedback := ""]
  {
    assert Dests(rs + [r]) == Dests(rs) + {r.feedback};
  }

  lemma ClearedSummary(html: map<Dest, string>, rs: seq<Rule>, summary: Option<Dest>)
    requires summary.Some? ==> summary.value in html
    ensures summary.None? ==> Cleared(html, rs, summary) == Cleared(html, rs, None)
    ensures summary.Some? ==> Cleared(html, rs, summary) == Cleared(html, rs, None)[summary.value := ""]
  {
    if summary.Some? {
      var a := Cleared(html, rs, summary);
      var b := Cleared(html, rs, None)[summary.value := ""];
      assert forall d :: d in a <==> d in b;
      MapExt(a, b);
    }
  }

  lemma WithFeedbackNone(html: map<Dest, string>)
    ensures WithFeedback(html, []) == html
  {
    var m := WithFeedback(html, []);
    assert m.Keys == html.Keys;
    forall d | d in html
      ensures m[d] == html[d]
    {
      assert FeedbackText([], d) == "";
      assert html[d] + "" == html[d];
    }
  }

  /** Two pages with the same elements and the same content are equal. */
  lemma MapExt(a: map<Dest, string>, b: map<Dest, string>)
    requires forall d :: d in a <==> d in b
    requires forall d :: d in a ==> a[d] == b[d]
    ensures a == b
  {
  }

  lemma AppendAssoc(a: string, b: string, c: string)
    ensures a + (b + c) == (a + b) + c
  {
  }

  lemma WithFeedbackAt(html: map<Dest, string>, rs: seq<Rule>, d: Dest)
    requires d in html
    ensures d in WithFeedback(html, rs)
    ensures WithFeedback(html, rs)[d] == html[d] + FeedbackText(rs, d)
  {
  }

  lemma WithFeedbackSnocAt(html: map<Dest, string>, rs: seq<Rule>, r: Rule, d: Dest)
    requires d in html
    ensures d in WithFeedback(html, rs + [r]) && d in WithFeedback(html, rs)
    ensures r.feedback == d ==> WithFeedback(html, rs + [r])[d] == WithFeedback(html, rs)[d] + Entry(r)
    ensures r.feedback != d ==> WithFeedback(html, rs + [r])[d] == WithFeedback(html, rs)[d]
  {
    WithFeedbackAt(html, rs, d);
    WithFeedbackAt(html, rs + [r], d);
    FeedbackTextSnoc(rs, r, d);
    AppendAssoc(html[d], FeedbackText(rs, d), Entry(r));
  }

  lemma WithFeedbackSnoc(html: map<Dest, string>, rs: seq<Rule>, r: Rule)
    requires r.feedback in html
    ensures WithFeedback(html, rs + [r])
            == WithFeedback(html, rs)[r.feedback := WithFeedback(html, rs)[r.feedback] + Entry(r)]
  {
    var w := WithFeedback(html, rs);
    var a := WithFeedback(html, rs + [r]);
    var b := w[r.feedback := w[r.feedback] + Entry(r)];
    forall d | d in html
      ensures d in a && d in b && a[d] == b[d]
    {
      WithFeedbackSnocAt(html, rs, r, d);
    }
    MapExt(a, b);
  }

  /** The elements feedback is written into, with their current content. */
  class Page {
    var html: map<Dest, string>

    constructor(html: map<Dest, string>)
      ensures this.html == html
    {
      this.html := html;
    }
  }

  class Validation {
    var rules: seq<Rule>
    var failedRules: seq<Rule>
    var valid: bool
    var summary: Option<Dest>

    constructor()
      ensures rules == [] && failedRules == [] && !valid && summary == None
    {
      rules := [];
      failedRules := [];
      valid := false;
      summary := None;
    }

    /** Every destination the feedback methods write to is an element of the page. */
    predicate OnPage(page: Page)
      reads this, page
    {
      (forall r :: r in rules ==> r.feedback in page.html)
      && (summary.Some? ==> summary.value in page.html)
    }

    /** `add`: append one rule at the end; earlier rules stay as they are and
        duplicates are not detected. `allow_empty` defaults to false. */
    method Add(target: Target, ruleType: RuleType, message: string, feedback: Dest, allowEmpty: bool := false)
      modifies this`rules
      ensures rules == old(rules) + [Rule(target, ruleType, message, feedback, allowEmpty)]
    {
      rules := rules + [Rule(target, ruleType, message, feedback, allowEmpty)];
    }

    /** `clear_feedback`: empty every rule's destination, then the summary. */
    method ClearFeedback(page: Page)
      requires OnPage(page)
      modifies page
      ensures page.html == Cleared(old(page.html), rules, summary)
    {
      var i := 0;
      while i < |rules|
        invariant 0 <= i <= |rules|
        invariant page.html == Cleared(old(page.html), rules[..i], None)
      {
        var rule := rules[i];
        assert rules[..i + 1] == rules[..i] + [rule];
        ClearedSnoc(old(page.html), rules[..i], rule);
        page.html := page.html[rule.feedback := ""];
        i := i + 1;
      }
      assert rules[..i] == rules;
      ClearedSummary(old(page.html), rules, summary);
      if summary.Some? {
        page.html := page.html[summary.value := ""];
      }
    }

    /** `display_feedback`: append each failed rule's message and "; " to its destination. */
    method DisplayFeedback(page: Page)
      requires forall r :: r in failedRules ==> r.feedback in page.html
      modifies page
      ensures page.html == WithFeedback(old(page.html), failedRules)
    {
      var i := 0;
      assert failedRules[..0] == [];
      WithFeedbackNone(page.html);
      while i < |failedRules|
        invariant 0 <= i <= |failedRules|
        invariant page.html == WithFeedback(old(page.html), failedRules[..i])
      {
        var rule := failedRules[i];
        assert failedRules[..i + 1] == failedRules[..i] + [rule];
        WithFeedbackSnoc(old(page.html), failedRules[..i], rule);
        page.html := page.html[rule.feedback := page.html[rule.feedback] + (rule.message + "; ")];
        i := i + 1;
      }
      assert failedRules[..i] == failedRules;
    }

    /** `display_feedback_summary`: with a summary element, append every failed
        rule's message and "; " to it; without one, do nothing. */
    method DisplayFeedbackSummary(page: Page)
      requires summary.Some? ==> summary.value in page.html
      modifies page
      ensures page.html == WithSummary(old(page.html), failedRules, summary)
    {
      if summary.None? {
        return;
      }
      var s := summary.value;
      var i := 0;
      assert failedRules[..0] == [];
      assert Messages([]) == "" && page.html[s] + "" == page.html[s];
      assert page.html[s := page.html[s]] == page.html;
      while i < |failedRules|
        invariant 0 <= i <= |failedRules|
        invariant page.html == old(page.html)[s := old(page.html)[s] + Messages(failedRules[..i])]
      {
        var rule := failedRules[i];
        assert failedRules[..i + 1] == failedRules[..i] + [rule];
        MessagesSnoc(failedRules[..i], rule);
        AppendAssoc(old(page.html)[s], Messages(failedRules[..i]), Entry(rule));
        page.html := page.html[s := page.html[s] + (rule.message + "; ")];
        i := i + 1;
      }
      assert failedRules[..i] == failedRules;
    }

    /** `validate`: evaluate every rule in registration order against its
        target's current value and rebuild the failed list and the overall flag
        from scratch; with `displayFeedback`, clear and rewrite the feedback. */
    method Validate(displayFeedback: bool, doc: Document, rt: Runtime, page: Page) returns (ok: bool)
      requires AllEvaluable(rules, doc)
      requires displayFeedback ==> OnPage(page)
      modifies this`failedRules, this`valid, page
      ensures failedRules == Failed(rules, doc, rt)
      ensures ok == valid && (ok <==> failedRules == [])
      ensures !displayFeedback ==> page.html == old(page.html)
      ensures displayFeedback ==> page.html == AfterValidate(old(page.html), rules, failedRules, summary)
    {
      valid := true;
      failedRules := [];
      var i := 0;
      while i < |rules|
        invariant 0 <= i <= |rules|
        invariant failedRules == Failed(rules[..i], doc, rt)
        invariant valid <==> failedRules == []
        invariant page.html == old(page.html)
      {
        var rule := rules[i];
        assert rules[..i + 1] == rules[..i] + [rule];
        assert rule in rules;
        FailedSnoc(rules[..i], rule, doc, rt);
        var value := TargetValue(doc(rule.target));
        if (!rule.allowEmpty && Blank(value)) || !Test(rule.ruleType, value, rt) {
          failedRules := failedRules + [rule];
          valid := false;
        }
        i := i + 1;
      }
      assert rules[..i] == rules;
      if displayFeedback {
        ClearFeedback(page);
        DisplayFeedback(page);
        DisplayFeedbackSummary(page);
      }
      ok := valid;
    }
  }

  /** Validating twice with unchanged values gives the same result, the same
      failed list and the same page. */
  method ValidateTwice(v: Validation, doc: Document, rt: Runtime, page: Page)
    returns (first: bool, second: bool)
    requires AllEvaluable(v.rules, doc) && v.OnPage(page)
    modifies v, page
    ensures v.rules == old(v.rules) && v.summary == old(v.summary)
    ensures v.failedRules == Failed(v.rules, doc, rt)
    ensures first == second
    ensures page.html == AfterValidate(old(page.html), v.rules, v.failedRules, v.summary)
  {
    first := v.Validate(true, doc, rt, page);
    second := v.Validate(true, doc, rt, page);
    FeedbackIdempotent(old(page.html), v.rules, v.failedRules, v.summary);
  }
}
