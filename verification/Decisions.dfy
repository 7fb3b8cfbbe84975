/** Reviewed decisions of scripts/translation/translate_ts.py: `validate_decision` turns a JSON object
    into a normal form, and `resolved_values` says what text it stands for. */
module Decisions {
  import opened Wrappers

  /** The identity of a message. The original names it by a hash, taken here as injective: an identity
      is its own name. */
  datatype Id = Id(
    context: string, source: string, comment: string, extracomment: string,
    numerus: bool, occurrence: nat, messageId: string)

  /** A JSON value; Other is a number, of which only the text that Python prints for it matters. */
  datatype Json =
    | Null
    | Bool(b: bool)
    | Text(s: string)
    | List(items: seq<Json>)
    | Dict(entries: map<string, Json>)
    | Other(text: string)

  /** What the `id` field of an object says, as a string: nothing, the name of a message, or no name. */
  datatype RawId = NoId | Named(id: Id) | Unknown

  /** A message as a task or a review snapshot records it. */
  datatype Record = Record(
    id: Id, language: string, currentType: string, currentTranslation: Option<string>,
    currentPlurals: seq<string>, translatorComment: string)

  datatype Choice =
    | NeedsContext(question: string)
    | AcceptCurrent
    | AcceptSource
    | Singular(text: string)
    | PluralForms(forms: seq<string>)

  /** A decision in normal form. */
  datatype Decision = Decision(id: Id, choice: Choice, sourceReason: Option<string>)

  /** The text a decision stands for. */
  datatype Value = One(text: string) | Forms(forms: seq<string>)
  {
    function Texts(): seq<string> {
      match this
      case One(t) => [t]
      case Forms(fs) => fs
    }
  }

  /** The placeholder, rich-text and accelerator checks are not part of this model: `acceptable` says
      that a text passes them for a source, and `complete` that it keeps every placeholder. */
  datatype Checks = Checks(acceptable: (string, string, bool) -> bool, complete: (string, string) -> bool)

  predicate IsSpace(c: char) {
    var n := c as int;
    || 9 <= n <= 13 || 28 <= n <= 32 || n == 0x85 || n == 0xA0 || n == 0x1680 || 0x2000 <= n <= 0x200A
    || n == 0x2028 || n == 0x2029 || n == 0x202F || n == 0x205F || n == 0x3000
  }

  /** Python: `not s.strip()`. */
  predicate Blank(s: string) {
    forall c | c in s :: IsSpace(c)
  }

  // ---------------------------------------------------------------- resolved_values

  /** The current values of a record, as `validate_decision` reads them. */
  function CurrentTexts(r: Record): seq<Option<string>> {
    if r.currentPlurals != [] then
      seq(|r.currentPlurals|, i requires 0 <= i < |r.currentPlurals| => Some(r.currentPlurals[i]))
    else [r.currentTranslation]
  }

  function CurrentValue(r: Record): Value {
    if r.currentPlurals != [] then Forms(r.currentPlurals)
    else One(if r.currentTranslation.Some? then r.currentTranslation.value else "")
  }

  function Resolved(r: Record, choice: Choice): Value
    requires !choice.NeedsContext?
  {
    match choice
    case AcceptCurrent => CurrentValue(r)
    case AcceptSource => One(r.id.source)
    case Singular(t) => One(t)
    case PluralForms(fs) => Forms(fs)
  }

  // ---------------------------------------------------------------- validate_decision

  const SOURCE_REASON := "source_reason"

  /** The decision fields, in the order in which the original looks at them. */
  const FIELDS: seq<string> := ["translation", "plural_translations", "accept_current", "accept_source",
                                "needs_context"]

  predicate IsSelected(fields: map<string, Json>, field: string) {
    && field in fields
    && if field == "accept_current" || field == "accept_source" then fields[field] == Bool(true)
       else fields[field] != Null
  }

  function Selected(fields: map<string, Json>): seq<string> {
    SelectedUpTo(fields, |FIELDS|)
  }

  function SelectedUpTo(fields: map<string, Json>, k: nat): seq<string>
    requires k <= |FIELDS|
  {
    if k == 0 then []
    else SelectedUpTo(fields, k - 1) + if IsSelected(fields, FIELDS[k - 1]) then [FIELDS[k - 1]] else []
  }

  predicate AllTexts(items: seq<Json>) {
    forall j | j in items :: j.Text? && !Blank(j.s)
  }

  function TextsOf(items: seq<Json>): (texts: seq<string>)
    requires AllTexts(items)
    ensures |texts| == |items|
  {
    seq(|items|, i requires 0 <= i < |items| => assert items[i] in items; items[i].s)
  }

  /** The choice that a field makes, before normalization; None is an error. */
  function ChoiceOf(r: Record, field: string, value: Json): Option<Choice> {
    if field == "needs_context" then
      if value.Text? && !Blank(value.s) then Some(NeedsContext(value.s)) else None
    else if field == "accept_current" then
      if forall t | t in CurrentTexts(r) :: t.Some? && !Blank(t.value) then Some(AcceptCurrent) else None
    else if field == "accept_source" then
      if r.id.numerus then None else Some(AcceptSource)
    else if field == "translation" then
      if r.id.numerus || !value.Text? || Blank(value.s) then None else Some(Singular(value.s))
    else
      if !r.id.numerus || !value.List? || |value.items| != |r.currentPlurals| || !AllTexts(value.items) then None
      else if r.id.source in TextsOf(value.items) && !("en" <= r.language) then None
      else Some(PluralForms(TextsOf(value.items)))
  }

  /** Text equal to the source is recorded as an acceptance of the source. */
  function Normalized(r: Record, choice: Choice): Choice {
    match choice
    case AcceptCurrent => if !r.id.numerus && CurrentTexts(r) == [Some(r.id.source)] then AcceptSource else choice
    case Singular(t) => if t == r.id.source then AcceptSource else choice
    case _ => choice
  }

  predicate GoodValue(c: Checks, r: Record, v: Value) {
    && r.id.numerus == v.Forms?
    && (forall t | t in v.Texts() :: !Blank(t) && c.acceptable(r.id.source, t, r.id.numerus)
                                     && (!r.id.numerus ==> c.complete(r.id.source, t)))
    && (r.id.numerus ==> exists t | t in v.Texts() :: c.complete(r.id.source, t))
  }

  function WithReason(choice: Choice, fields: map<string, Json>): Option<Option<string>> {
    if SOURCE_REASON !in fields then Some(None)
    else
      var reason := fields[SOURCE_REASON];
      if choice.AcceptSource? && reason.Text? && !Blank(reason.s) then Some(Some(reason.s)) else None
  }

  function Validate(c: Checks, r: Record, id: RawId, fields: map<string, Json>): (d: Option<Decision>) {
    if !(forall f | f in fields :: f == SOURCE_REASON || f in FIELDS) then None
    else if id != Named(r.id) then None
    else
      var selected := Selected(fields);
      if |selected| != 1 || selected[0] !in fields then None
      else
        match ChoiceOf(r, selected[0], fields[selected[0]])
        case None => None
        case Some(NeedsContext(q)) => Some(Decision(r.id, NeedsContext(q), None))
        case Some(choice) =>
          var normal := Normalized(r, choice);
          match WithReason(normal, fields)
          case None => None
          case Some(reason) =>
            if GoodValue(c, r, Resolved(r, normal)) then Some(Decision(r.id, normal, reason)) else None
  }

  // ---------------------------------------------------------------- normal forms

  function FieldName(choice: Choice): string {
    match choice
    case NeedsContext(_) => "needs_context"
    case AcceptCurrent => "accept_current"
    case AcceptSource => "accept_source"
    case Singular(_) => "translation"
    case PluralForms(_) => "plural_translations"
  }

  function FieldValue(choice: Choice): Json {
    match choice
    case NeedsContext(q) => Text(q)
    case AcceptCurrent => Bool(true)
    case AcceptSource => Bool(true)
    case Singular(t) => Text(t)
    case PluralForms(fs) => List(seq(|fs|, i requires 0 <= i < |fs| => Text(fs[i])))
  }

  /** The JSON object that a decision in normal form is written as. */
  function FieldsOf(d: Decision): map<string, Json> {
    map[FieldName(d.choice) := FieldValue(d.choice)]
    + if d.sourceReason.Some? then map[SOURCE_REASON := Text(d.sourceReason.value)] else map[]
  }

  lemma SelectedIs(fields: map<string, Json>, field: string)
    requires field in FIELDS && IsSelected(fields, field)
    requires forall f | f in FIELDS && f != field :: !IsSelected(fields, f)
    ensures Selected(fields) == [field]
  {
    var f := FIELDS;
    assert SelectedUpTo(fields, 0) == [];
    assert SelectedUpTo(fields, 1) == if field == f[0] then [field] else [];
    assert SelectedUpTo(fields, 2) == if field == f[0] || field == f[1] then [field] else [];
    assert SelectedUpTo(fields, 3) == if field == f[0] || field == f[1] || field == f[2] then [field] else [];
    assert SelectedUpTo(fields, 4) == if field == f[4] then [] else [field];
  }

  /** What every choice in a validated decision satisfies. */
  ghost predicate Settled(r: Record, choice: Choice) {
    && Normalized(r, choice) == choice
    && match choice
       case NeedsContext(q) => !Blank(q)
       case AcceptCurrent => forall t | t in CurrentTexts(r) :: t.Some? && !Blank(t.value)
       case AcceptSource => !r.id.numerus
       case Singular(t) => !r.id.numerus && !Blank(t)
       case PluralForms(fs) => r.id.numerus && |fs| == |r.currentPlurals| && (forall t | t in fs :: !Blank(t))
                               && (r.id.source in fs ==> "en" <= r.language)
  }

  lemma ChoiceSettles(r: Record, field: string, value: Json)
    requires ChoiceOf(r, field, value).Some?
    ensures Settled(r, Normalized(r, ChoiceOf(r, field, value).value))
  {
    var choice := ChoiceOf(r, field, value).value;
    if choice.PluralForms? {
      forall t | t in choice.forms
        ensures !Blank(t)
      {
        var i :| 0 <= i < |choice.forms| && choice.forms[i] == t;
        assert value.items[i] in value.items;
      }
    }
  }

  lemma SettledIsRead(r: Record, choice: Choice)
    requires Settled(r, choice)
    ensures ChoiceOf(r, FieldName(choice), FieldValue(choice)) == Some(choice)
  {
    if choice.PluralForms? {
      var items := FieldValue(choice).items;
      assert forall i :: 0 <= i < |items| ==> choice.forms[i] in choice.forms;
      assert AllTexts(items);
      assert TextsOf(items) == choice.forms;
    }
  }

  lemma FieldsRead(d: Decision)
    ensures var fields := FieldsOf(d);
            && FieldName(d.choice) in fields && fields[FieldName(d.choice)] == FieldValue(d.choice)
            && Selected(fields) == [FieldName(d.choice)]
            && (forall f | f in fields :: f == SOURCE_REASON || f in FIELDS)
            && (SOURCE_REASON in fields <==> d.sourceReason.Some?)
            && (d.sourceReason.Some? ==> fields[SOURCE_REASON] == Text(d.sourceReason.value))
  {
    var field := FieldName(d.choice);
    assert |SOURCE_REASON| == 13 && SOURCE_REASON[0] == 's';
    assert field in FIELDS by {
      assert FIELDS[0] == "translation" && FIELDS[1] == "plural_translations" && FIELDS[2] == "accept_current"
          && FIELDS[3] == "accept_source" && FIELDS[4] == "needs_context";
    }
    assert forall f | f in FIELDS :: f != SOURCE_REASON;
    SelectedIs(FieldsOf(d), field);
  }

  /** A decision that validation produced is in normal form: written out and validated again, it is
      unchanged. */
  ghost predicate IsNormal(c: Checks, r: Record, d: Decision) {
    d.id == r.id && Validate(c, r, Named(d.id), FieldsOf(d)) == Some(d)
  }

  lemma ValidateIsIdempotent(c: Checks, r: Record, id: RawId, fields: map<string, Json>)
    requires Validate(c, r, id, fields).Some?
    ensures IsNormal(c, r, Validate(c, r, id, fields).value)
  {
    hide ChoiceOf;
    hide Normalized;
    hide GoodValue;
    hide FieldsOf;
    hide Selected;
    hide Settled;
    var d := Validate(c, r, id, fields).value;
    var selected := Selected(fields);
    ChoiceSettles(r, selected[0], fields[selected[0]]);
    NeedsContextStays(r, ChoiceOf(r, selected[0], fields[selected[0]]).value);
    FieldsRead(d);
    SettledIsRead(r, d.choice);
    SettledIsNormal(r, d.choice);
  }

  lemma SettledIsNormal(r: Record, choice: Choice)
    requires Settled(r, choice)
    ensures Normalized(r, choice) == choice
  {
  }

  lemma NeedsContextStays(r: Record, choice: Choice)
    ensures choice.NeedsContext? ==> Normalized(r, choice) == choice
    ensures !choice.NeedsContext? ==> !Normalized(r, choice).NeedsContext?
  {
  }

  /** A decision in normal form, unless it asks for context, stands for text that passed every check. */
  lemma NormalIsGood(c: Checks, r: Record, d: Decision)
    requires IsNormal(c, r, d) && !d.choice.NeedsContext?
    ensures GoodValue(c, r, Resolved(r, d.choice))
  {
    hide ChoiceOf;
    hide Normalized;
    hide GoodValue;
    hide FieldsOf;
    hide Selected;
    var fields := FieldsOf(d);
    var choice := ChoiceOf(r, Selected(fields)[0], fields[Selected(fields)[0]]).value;
    NeedsContextStays(r, choice);
  }

  /** Normalization keeps the text that a choice stands for, with one exception: accepting plural forms
      that are the source alone, in a record of a message that has no plural. */
  lemma NormalizedKeepsValue(r: Record, choice: Choice)
    requires !choice.NeedsContext?
    ensures !Normalized(r, choice).NeedsContext?
    ensures Resolved(r, Normalized(r, choice)) == Resolved(r, choice)
       <==> !(choice.AcceptCurrent? && !r.id.numerus && r.currentPlurals == [r.id.source])
  {
    if r.currentPlurals != [] {
      assert CurrentTexts(r) == [Some(r.id.source)] <==> r.currentPlurals == [r.id.source] by {
        if CurrentTexts(r) == [Some(r.id.source)] {
          assert CurrentTexts(r)[0] == Some(r.currentPlurals[0]);
        }
      }
    } else {
      assert CurrentTexts(r) == [Some(r.id.source)] <==> r.currentTranslation == Some(r.id.source);
    }
  }

  /** Only a message with plurals has plural forms; so it is in every catalog that Qt writes. */
  predicate ProperPlurals(r: Record) {
    r.currentPlurals != [] ==> r.id.numerus
  }

  /** The exception is no well-formed record, so there normalization keeps the text whatever the choice. */
  lemma WellFormedKeepsValue(r: Record, choice: Choice)
    requires ProperPlurals(r) && !choice.NeedsContext?
    ensures !Normalized(r, choice).NeedsContext?
    ensures Resolved(r, Normalized(r, choice)) == Resolved(r, choice)
  {
    NormalizedKeepsValue(r, choice);
  }

  lemma SelectsCurrent(fields: map<string, Json>)
    requires fields == map["accept_current" := Bool(true)]
    ensures Selected(fields) == ["accept_current"]
    ensures forall f | f in fields :: f in FIELDS
  {
    assert FIELDS[2] == "accept_current";
    SelectedIs(fields, "accept_current");
  }

  /** The exception is reached: for a message without plurals whose one plural form is its source,
      accepting the current text is valid, and stands for one text where the form was accepted. */
  lemma NormalizedLosesForm(c: Checks, r: Record)
    requires !r.id.numerus && r.currentPlurals == [r.id.source] && !Blank(r.id.source)
    requires c.acceptable(r.id.source, r.id.source, false) && c.complete(r.id.source, r.id.source)
    ensures Validate(c, r, Named(r.id), map["accept_current" := Bool(true)]) == Some(Decision(r.id, AcceptSource, None))
    ensures Resolved(r, AcceptCurrent) == Forms([r.id.source]) && Resolved(r, AcceptSource) == One(r.id.source)
  {
    hide Selected;
    hide Blank;
    var fields: map<string, Json> := map["accept_current" := Bool(true)];
    SelectsCurrent(fields);
    assert |SOURCE_REASON| == 13 && |"accept_current"| == 14;
    assert CurrentTexts(r) == [Some(r.id.source)];
  }
}
