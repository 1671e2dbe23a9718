/** The contact form (js/form.js): the field rules, the per-field error annotations, the submit
    lifecycle around a fallible transport, the message character counter, the draft autosave in
    local storage, and the honeypot. */
module Form {
  import opened JsText

  const MaxChars: nat := 500
  /** `maxChars * 0.9`; 500 * 0.9 is exactly 450 in IEEE-754 double arithmetic. */
  const WarnChars: nat := 450
  const SaveWait: nat := 500

  // ---------------------------------------------------------------------------------------
  // The e-mail pattern /^[^\s@]+@[^\s@]+\.[^\s@]+$/
  // ---------------------------------------------------------------------------------------

  /** One character of the class `[^\s@]`. */
  predicate EmailChar(c: char) {
    !IsWhiteSpace(c) && c != '@'
  }

  predicate AllEmailChars(s: string) {
    forall k :: 0 <= k < |s| ==> EmailChar(s[k])
  }

  /** `s` reads as three non-empty runs of `[^\s@]` joined by an '@' at `i` and a '.' at `j`,
      with nothing before or after: one way the anchored pattern can match. */
  predicate EmailSplit(s: string, i: int, j: int) {
    && 0 < i && i + 1 < j && j + 1 < |s|
    && s[i] == '@' && s[j] == '.'
    && AllEmailChars(s[..i]) && AllEmailChars(s[i + 1..j]) && AllEmailChars(s[j + 1..])
  }

  /** The language of the pattern: some split matches. */
  ghost predicate EmailRegex(s: string) {
    exists i, j :: EmailSplit(s, i, j)
  }

  /** What is after the '@': only `[^\s@]`, with a '.' neither first nor last. */
  predicate EmailDomain(d: string) {
    AllEmailChars(d) && exists j :: 0 < j < |d| - 1 && d[j] == '.'
  }

  /** `emailRegex.test(s)`, decided from the first '@'. The shortest address it accepts has
      five characters, as in "a@b.c". */
  predicate EmailPattern(s: string)
    ensures EmailPattern(s) ==> |s| >= 5 && '@' in s && '.' in s
  {
    match IndexOf(s, '@')
    case None => false
    case Some(i) => 0 < i && AllEmailChars(s[..i]) && EmailDomain(s[i + 1..])
  }

  /** The decision from the first '@' accepts exactly the language of the pattern. */
  lemma {:induction false} EmailPatternIsRegex(s: string)
    ensures EmailPattern(s) <==> EmailRegex(s)
  {
    if EmailPattern(s) {
      var i := IndexOf(s, '@').value;
      var d := s[i + 1..];
      var j :| 0 < j < |d| - 1 && d[j] == '.';
      assert s[i + 1..i + 1 + j] == d[..j];
      assert s[i + 1 + j + 1..] == d[j + 1..];
      assert EmailSplit(s, i, i + 1 + j);
    }
    if EmailRegex(s) {
      var i, j :| EmailSplit(s, i, j);
      assert forall k :: 0 <= k < i ==> s[k] == s[..i][k];
      assert IndexOf(s, '@') == Some(i);
      var d := s[i + 1..];
      forall k | 0 <= k < |d|
        ensures EmailChar(d[k])
      {
        if k < j - i - 1 {
          assert d[k] == s[i + 1..j][k];
        } else if k > j - i - 1 {
          assert d[k] == s[j + 1..][k - (j - i)];
        }
      }
      assert d[j - i - 1] == '.';
    }
  }

  /** A value the pattern accepts holds no white space at all. */
  lemma EmailHasNoWhiteSpace(s: string)
    requires EmailPattern(s)
    ensures NoWhiteSpace(s)
  {
    var i := IndexOf(s, '@').value;
    forall k | 0 <= k < |s|
      ensures !IsWhiteSpace(s[k])
    {
      if k < i {
        assert s[k] == s[..i][k];
      } else if k > i {
        assert s[k] == s[i + 1..][k - i - 1];
      }
    }
  }

  // ---------------------------------------------------------------------------------------
  // Field rules
  // ---------------------------------------------------------------------------------------

  /** The named controls of the contact form, by their `name` (which is also their id): the
      four fields the page provides and the honeypot the script appends. */
  datatype Control = Name | Email | Subject | Message | Website

  /** The control's `name` attribute. */
  function ControlName(c: Control): (r: string)
    ensures |r| > 0
  {
    match c
    case Name => "name"
    case Email => "email"
    case Subject => "subject"
    case Message => "message"
    case Website => "website"
  }

  /** Distinct controls have distinct names: their first letters already differ. */
  lemma ControlNameInjective(a: Control, b: Control)
    ensures ControlName(a) == ControlName(b) ==> a == b
  {
    if ControlName(a) == ControlName(b) {
      assert ControlName(a)[0] == ControlName(b)[0];
    }
  }

  /** The four fields `validateForm` checks. */
  predicate IsValidated(field: Control) {
    field != Website
  }

  /** The least trimmed `length` of each text field, in UTF-16 code units; no rule (0) for
      any other name. */
  function MinLength(field: Control): nat {
    if field == Name then 2
    else if field == Subject then 3
    else if field == Message then 10
    else 0
  }

  /** The rule `validateForm` applies to one submitted value: the value is present and truthy
      (not ''), and then the email is tested as it stands while the others are trimmed. */
  predicate SubmitOk(data: map<Control, string>, field: Control) {
    && field in data && data[field] != ""
    && if field == Email then EmailPattern(data[field]) else Length(Trim(data[field])) >= MinLength(field)
  }

  /** The verdict `validateForm` returns. */
  predicate FormValid(data: map<Control, string>) {
    SubmitOk(data, Name) && SubmitOk(data, Email) && SubmitOk(data, Subject) && SubmitOk(data, Message)
  }

  /** The rule `validateField` applies on blur, to the already trimmed value; any name other
      than the four validated ones passes. */
  predicate BlurOk(field: Control, trimmed: string) {
    if field == Email then EmailPattern(trimmed) else Length(trimmed) >= MinLength(field)
  }

  function SubmitMessage(field: Control): string {
    if field == Name then "Please enter a valid name"
    else if field == Email then "Please enter a valid email address"
    else if field == Subject then "Please enter a subject"
    else "Please enter a message (at least 10 characters)"
  }

  function BlurMessage(field: Control): string {
    if field == Name then "Name must be at least 2 characters"
    else if field == Email then "Please enter a valid email"
    else if field == Subject then "Subject must be at least 3 characters"
    else "Message must be at least 10 characters"
  }

  /** A value that passes on submit passes on blur as well. */
  lemma SubmitPassImpliesBlurPass(data: map<Control, string>, field: Control)
    requires SubmitOk(data, field)
    ensures BlurOk(field, Trim(data[field]))
  {
    if field == Email {
      EmailHasNoWhiteSpace(data[field]);
    }
  }

  /** For the name, subject and message the two paths agree: the falsy test of `validateForm`
      adds nothing, since '' already fails the length rule. */
  lemma BlurAgreesOnTextFields(data: map<Control, string>, field: Control)
    requires field in data && field != Email && MinLength(field) > 0
    ensures SubmitOk(data, field) <==> BlurOk(field, Trim(data[field]))
  {
  }

  /** The two paths differ on an address with leading white space: on blur the value is
      trimmed and passes, on submit it is tested as it stands and fails. */
  lemma LeadingSpaceEmail(s: string)
    requires EmailPattern(s)
    ensures BlurOk(Email, Trim([' '] + s))
    ensures !SubmitOk(map[Email := [' '] + s], Email)
  {
    var padded := [' '] + s;
    EmailHasNoWhiteSpace(s);
    assert padded[1..] == s;
    assert TrimStart(s) == s;
    assert TrimStart(padded) == s;
    match IndexOf(padded, '@')
    case None =>
    case Some(i) =>
      assert padded[..i][0] == ' ';
  }

  /** The length rules count code units: a name of one character passes exactly when that
      character lies outside the Basic Multilingual Plane (an emoji, say), on blur and on
      submit alike. */
  lemma NameLengthInCodeUnits(c: char)
    ensures BlurOk(Name, [c]) <==> c as int >= 0x1_0000
    ensures SubmitOk(map[Name := [c]], Name) <==> c as int >= 0x1_0000
  {
    assert Utf16([c]) == Units(c) + Utf16([]) by { assert [c][1..] == []; }
    var t := Trim([c]);
    if IsWhiteSpace(c) {
      assert c as int < 0x1_0000;
      assert t == [];
    } else {
      assert NoWhiteSpace([c]);
      assert t == [c];
    }
  }

  /** The honeypot is never one of the validated fields, whatever its value. */
  lemma ValidationIgnoresWebsite(data: map<Control, string>, v: string)
    ensures FormValid(data[Website := v]) == FormValid(data)
  {
    var d := data[Website := v];
    assert forall f :: IsValidated(f) ==> (f in d <==> f in data) && (f in data ==> d[f] == data[f]);
  }

  // ---------------------------------------------------------------------------------------
  // Error annotations
  // ---------------------------------------------------------------------------------------

  /** One captured input with its parent group and what the scripts attach to it: its value,
      the text of the group's `.field-error` span, if any, and the state of the input's
      debounced autosave listener. The input's class 'error' and the span are only ever added
      and removed together, so one option stands for both. */
  datatype FieldGroup = FieldGroup(value: string, error: Option<string>, save: Debounced)

  /** One block of `validateForm`: the field `f`, when present and failing, gets its message. */
  function AnnotateOne(fields: map<Control, FieldGroup>, data: map<Control, string>, f: Control): map<Control, FieldGroup>
  {
    if f in fields && !SubmitOk(data, f) then fields[f := fields[f].(error := Some(SubmitMessage(f)))] else fields
  }

  /** The fields after `validateForm(data)`: the four blocks, in order. */
  function Annotated(fields: map<Control, FieldGroup>, data: map<Control, string>): map<Control, FieldGroup>
  {
    var afterName := AnnotateOne(fields, data, Name);
    var afterEmail := AnnotateOne(afterName, data, Email);
    var afterSubject := AnnotateOne(afterEmail, data, Subject);
    AnnotateOne(afterSubject, data, Message)
  }

  /** A field group as `validateForm` leaves it: marked with the field's message when the
      field is one of the four and its submitted value fails. */
  function Marked(g: FieldGroup, data: map<Control, string>, f: Control): FieldGroup {
    if IsValidated(f) && !SubmitOk(data, f) then g.(error := Some(SubmitMessage(f))) else g
  }

  /** One block touches its own field only, and marks it as `Marked` says. */
  lemma AnnotateOneAt(fields: map<Control, FieldGroup>, data: map<Control, string>, f: Control, n: Control)
    requires IsValidated(f)
    ensures n in AnnotateOne(fields, data, f) <==> n in fields
    ensures n in fields ==>
      AnnotateOne(fields, data, f)[n] == (if n == f then Marked(fields[n], data, n) else fields[n])
  {
  }

  /** `validateForm` marks exactly the validated fields that fail, each with its own message;
      every other field, a passing one included, is left as it was, so an error shown earlier
      on a passing field stays. */
  lemma AnnotatedMarksFailures(fields: map<Control, FieldGroup>, data: map<Control, string>)
    ensures Annotated(fields, data).Keys == fields.Keys
    ensures forall n :: n in fields ==> Annotated(fields, data)[n] == Marked(fields[n], data, n)
  {
    var afterName := AnnotateOne(fields, data, Name);
    var afterEmail := AnnotateOne(afterName, data, Email);
    var afterSubject := AnnotateOne(afterEmail, data, Subject);
    var after := AnnotateOne(afterSubject, data, Message);
    forall n | n in fields
      ensures n in after && after[n] == Marked(fields[n], data, n)
    {
      AnnotateOneAt(fields, data, Name, n);
      AnnotateOneAt(afterName, data, Email, n);
      AnnotateOneAt(afterEmail, data, Subject, n);
      AnnotateOneAt(afterSubject, data, Message, n);
    }
  }

  /** A form that passes `validateForm` is not annotated at all. */
  lemma ValidFormUnannotated(fields: map<Control, FieldGroup>, data: map<Control, string>)
    requires FormValid(data)
    ensures Annotated(fields, data) == fields
  {
    AnnotatedMarksFailures(fields, data);
  }

  // ---------------------------------------------------------------------------------------
  // Character counter
  // ---------------------------------------------------------------------------------------

  /** The counter's colour: 'var(--text-light)', '#ffc107' and '#dc3545'. */
  datatype Tier = Normal | Warning | Over

  function CounterText(length: nat): string {
    DecimalString(length) + " / 500"
  }

  /** The number a counter text shows before its " / ". */
  function CounterReading(text: string): nat {
    match IndexOf(text, ' ')
    case None => 0
    case Some(i) =>
      if forall k :: 0 <= k < i ==> '0' <= text[k] <= '9' then DecimalValue(text[..i]) else 0
  }

  /** The counter shows the length typed, before any truncation ("501 / 500"). */
  lemma {:induction false} CounterShowsTypedLength(length: nat)
    ensures CounterReading(CounterText(length)) == length
  {
    var d := DecimalString(length);
    var text := CounterText(length);
    assert text[|d|] == ' ';
    assert forall k :: 0 <= k < |d| ==> text[k] == d[k];
    assert IndexOf(text, ' ') == Some(|d|);
    assert text[..|d|] == d;
    DecimalRoundTrip(length);
  }

  /** What an input event leaves in the message field and shows in the counter. */
  datatype CounterView = CounterView(value: string, text: string, tier: Tier)

  /** The counter's input handler, for a message now reading `typed`: all counting is in
      UTF-16 code units. The value is cut to its first 500 code units, the text counts what
      was typed, and the colour escalates past 450 and 500. */
  function CounterInput(typed: string): (v: CounterView)
    ensures |v.value| <= |typed| && v.value == typed[..|v.value|] && Length(v.value) <= MaxChars
    ensures Length(v.value) <= Length(typed) && Utf16(v.value) == Utf16(typed)[..Length(v.value)]
    ensures Length(typed) <= MaxChars ==> v.value == typed
    ensures Length(typed) > MaxChars ==>
      || Length(v.value) == MaxChars
      || (Length(v.value) == MaxChars - 1 && 0xD800 <= Utf16(typed)[MaxChars - 1] < 0xDC00)
    ensures v.text == CounterText(Length(typed))
    ensures v.tier == Over <==> Length(typed) > MaxChars
    ensures v.tier == Warning <==> WarnChars < Length(typed) <= MaxChars
  {
    var length := Length(typed);
    if length > MaxChars then
      Utf16PrefixFits(typed, MaxChars);
      Utf16PrefixCut(typed, MaxChars);
      CounterView(Utf16Prefix(typed, MaxChars), CounterText(length), Over)
    else if length > WarnChars then CounterView(typed, CounterText(length), Warning)
    else CounterView(typed, CounterText(length), Normal)
  }

  // ---------------------------------------------------------------------------------------
  // debounce and the draft store
  // ---------------------------------------------------------------------------------------

  /** What one `debounce(func, wait)` closure holds: its wait and the due time of its pending
      timer, if any. */
  datatype Debounced = Debounced(wait: nat, timeout: Option<nat>)

  /** A call at time `now`: the pending timer, if any, is cleared and a new one set. */
  function Call(d: Debounced, now: nat): (e: Debounced)
    ensures e.wait == d.wait && e.timeout == Some(now + d.wait)
  {
    Debounced(d.wait, Some(now + d.wait))
  }

  /** The pending timer has come due by `now`. */
  predicate Due(d: Debounced, now: nat) {
    d.timeout.Some? && d.timeout.value <= now
  }

  /** Calls of the debounced function and the clock reaching a time. */
  datatype Clock = Invoke(at: nat) | Elapse(at: nat)

  /** The closure after a trace, and how many times `func` ran. */
  function RunDebounced(d: Debounced, trace: seq<Clock>): (r: (Debounced, nat))
    ensures r.0.wait == d.wait
  {
    if trace == [] then (d, 0)
    else
      var (e, runs) := RunDebounced(d, trace[..|trace| - 1]);
      match trace[|trace| - 1]
      case Invoke(t) => (Call(e, t), runs)
      case Elapse(t) => if Due(e, t) then (Debounced(e.wait, None), runs + 1) else (e, runs)
  }

  function Invocations(trace: seq<Clock>): nat {
    if trace == [] then 0 else Invocations(trace[..|trace| - 1]) + if trace[|trace| - 1].Invoke? then 1 else 0
  }

  /** Each run consumes a pending call, and a call replaces any pending one: from an idle
      closure, runs plus the pending timer never exceed the calls made. */
  lemma {:induction false} DebounceRunsAtMostCalls(d: Debounced, trace: seq<Clock>)
    requires d.timeout == None
    ensures var (e, runs) := RunDebounced(d, trace);
      runs + (if e.timeout.Some? then 1 else 0) <= Invocations(trace)
  {
    if trace != [] {
      DebounceRunsAtMostCalls(d, trace[..|trace| - 1]);
    }
  }

  /** A burst of calls followed by a quiet wait runs `func` exactly once, after the last call. */
  lemma {:induction false} BurstRunsOnce(d: Debounced, burst: seq<nat>, quiet: nat)
    requires |burst| > 0 && quiet >= burst[|burst| - 1] + d.wait
    ensures var trace := seq(|burst|, k requires 0 <= k < |burst| => Invoke(burst[k])) + [Elapse(quiet)];
      RunDebounced(d, trace).1 == RunDebounced(d, trace[..|burst|]).1 + 1
      && RunDebounced(d, trace).0.timeout == None
  {
    var calls := seq(|burst|, k requires 0 <= k < |burst| => Invoke(burst[k]));
    var trace := calls + [Elapse(quiet)];
    assert trace[..|trace| - 1] == calls && trace[|trace| - 1] == Elapse(quiet);
    assert trace[..|burst|] == calls;
    assert calls[|calls| - 1] == Invoke(burst[|burst| - 1]);
    var e := RunDebounced(d, calls).0;
    assert e.timeout == Some(burst[|burst| - 1] + d.wait) && e.wait == d.wait;
  }

  /** The local-storage key a field's draft lives under. */
  function DraftKey(name: Control): string {
    "form_" + ControlName(name)
  }

  lemma DraftKeyInjective(a: Control, b: Control)
    ensures DraftKey(a) == DraftKey(b) ==> a == b
  {
    if DraftKey(a) == DraftKey(b) {
      assert ControlName(a) == DraftKey(a)[5..] && ControlName(b) == DraftKey(b)[5..];
      ControlNameInjective(a, b);
    }
  }

  function DraftKeys(names: seq<Control>): set<string> {
    set n | n in names :: DraftKey(n)
  }

  /** The value restore leaves in a field: the saved draft when it is non-empty, the current
      value otherwise. */
  function Restored(storage: map<string, string>, name: Control, current: string): (r: string)
    ensures r == "" ==> current == ""
    ensures r != current ==> DraftKey(name) in storage && r == storage[DraftKey(name)]
  {
    var key := DraftKey(name);
    if key in storage && storage[key] != "" then storage[key] else current
  }

  /** Saving `v` for one field and restoring gives `v` back in that field, unless it is '', and
      leaves what every other field restores unchanged. */
  lemma SaveThenRestore(storage: map<string, string>, name: Control, v: string, other: Control, current: string)
    ensures Restored(storage[DraftKey(name) := v], name, current) == if v != "" then v else current
    ensures other != name ==>
      Restored(storage[DraftKey(name) := v], other, current) == Restored(storage, other, current)
  {
    DraftKeyInjective(name, other);
  }

  /** The honeypot listener's test. */
  predicate IsSpam(value: string) {
    value != ""
  }

  // ---------------------------------------------------------------------------------------
  // The form
  // ---------------------------------------------------------------------------------------

  /** The 'success' and 'error' classes of the status banner. */
  datatype StatusKind = Success | Failure

  /** The `.form-status` banner: the kind of its last message, the text, whether it is
      displayed, and how many of its 5-second hide timers have not fired. */
  datatype Banner = Banner(kind: Option<StatusKind>, text: string, shown: bool, pendingHides: nat)

  const InvalidFormText := "Please fill in all required fields correctly."
  const SentText := "Thank you! Your message has been sent successfully."
  const FailedText := "Oops! Something went wrong. Please try again or contact me directly."

  /** The fields after `form.reset()`: every value back to its default, '' on this page; the
      error annotations are not form state and stay. */
  ghost function Reset(fields: map<Control, FieldGroup>): map<Control, FieldGroup> {
    map n | n in fields :: fields[n].(value := "")
  }

  /** The contact form and the state its listeners keep: the fields with their error
      annotations, the honeypot, the submit button, the status banner, the character counter,
      local storage and the pending timers. Each control's id equals its name. */
  class ContactForm {
    /** The named inputs and textarea captured at load, in document order. The honeypot is
        appended later, so it is not among them. */
    const inputs: seq<Control>
    var fields: map<Control, FieldGroup>
    /** The value of the hidden 'website' input. */
    var honeypot: string
    var submitDisabled: bool
    /** The data handed to the transport while the call has not settled. */
    var sending: Option<map<Control, string>>
    var status: Banner
    var counterText: string
    var counterTier: Tier
    /** localStorage. */
    var storage: map<string, string>
    /** The 2-second draft-removal timers that have not fired. */
    var pendingClears: nat

    /** The button is disabled exactly while a submission is in flight. */
    ghost predicate Valid()
      reads this
    {
      submitDisabled <==> sending.Some?
    }

    /** `Object.fromEntries(new FormData(form))`: each named control's value, with the
        honeypot, appended last, under 'website'. */
    function Snapshot(): (data: map<Control, string>)
      reads this
      ensures data.Keys == fields.Keys + {Website} && data[Website] == honeypot
      ensures forall n :: n in fields && n != Website ==> data[n] == fields[n].value
    {
      (map n | n in fields :: fields[n].value)[Website := honeypot]
    }

    /** The page loads: empty fields, the counter at "0 / 500", and then `initFormAutosave`
        restores the saved drafts. The counter is not updated by the restore. */
    constructor Load(names: seq<Control>, stored: map<string, string>)
      ensures Valid()
      ensures inputs == names && storage == stored
      ensures forall n :: n in fields <==> n in names
      ensures forall n :: n in fields ==> fields[n] == FieldGroup(Restored(stored, n, ""), None, Debounced(SaveWait, None))
      ensures honeypot == "" && !submitDisabled && sending == None
      ensures status == Banner(None, "", false, 0)
      ensures counterText == CounterText(0) && counterTier == Normal
      ensures pendingClears == 0
    {
      inputs := names;
      fields := map n | n in names :: FieldGroup("", None, Debounced(SaveWait, None));
      honeypot := "";
      submitDisabled := false;
      sending := None;
      status := Banner(None, "", false, 0);
      counterText := CounterText(0);
      counterTier := Normal;
      storage := stored;
      pendingClears := 0;
      new;
      RestoreDrafts();
    }

    /** The restore loop of `initFormAutosave`: a captured field takes its saved draft when
        that is non-empty. */
    method RestoreDrafts()
      requires forall i :: 0 <= i < |inputs| ==> inputs[i] in fields
      modifies this`fields
      ensures fields.Keys == old(fields).Keys
      ensures forall n :: n in fields ==> fields[n] == old(fields)[n].(value :=
        if n in inputs then Restored(storage, n, old(fields)[n].value) else old(fields)[n].value)
    {
      var k := 0;
      while k < |inputs|
        invariant 0 <= k <= |inputs|
        invariant fields.Keys == old(fields).Keys
        invariant forall n :: n in fields ==> fields[n] == old(fields)[n].(value :=
          if n in inputs[..k] then Restored(storage, n, old(fields)[n].value) else old(fields)[n].value)
      {
        var name := inputs[k];
        var key := DraftKey(name);
        ghost var before := fields;
        if key in storage && storage[key] != "" {
          fields := fields[name := fields[name].(value := storage[key])];
        }
        assert fields == before[name := before[name].(value := Restored(storage, name, before[name].value))];
        assert inputs[..k + 1] == inputs[..k] + [name];
        k := k + 1;
      }
      assert inputs[..k] == inputs;
    }

    method ShowFieldError(field: Control, message: string)
      modifies this`fields
      ensures fields == if field in old(fields) then old(fields)[field := old(fields)[field].(error := Some(message))] else old(fields)
    {
      if field !in fields {
        return;
      }
      fields := fields[field := fields[field].(error := Some(message))];
    }

    method ClearFieldError(field: Control)
      requires field in fields
      modifies this`fields
      ensures fields == old(fields)[field := old(fields)[field].(error := None)]
    {
      fields := fields[field := fields[field].(error := None)];
    }

    /** `validateField` on blur: the error is cleared first and shown again when the trimmed
        value fails its rule. */
    method ValidateField(field: Control) returns (ok: bool)
      requires field in fields
      modifies this`fields
      ensures ok == BlurOk(field, Trim(old(fields)[field].value))
      ensures fields == old(fields)[field := old(fields)[field].(error := if ok then None else Some(BlurMessage(field)))]
    {
      var value := Trim(fields[field].value);
      ClearFieldError(field);
      ok := BlurOk(field, value);
      if !ok {
        ShowFieldError(field, BlurMessage(field));
      }
    }

    /** `validateForm`: every rule is checked, none short-circuits the others. */
    method ValidateForm(data: map<Control, string>) returns (isValid: bool)
      modifies this`fields
      ensures isValid == FormValid(data)
      ensures fields == Annotated(old(fields), data)
      ensures isValid ==> fields == old(fields)
    {
      isValid := true;
      if !SubmitOk(data, Name) {
        isValid := false;
        ShowFieldError(Name, SubmitMessage(Name));
      }
      if !SubmitOk(data, Email) {
        isValid := false;
        ShowFieldError(Email, SubmitMessage(Email));
      }
      if !SubmitOk(data, Subject) {
        isValid := false;
        ShowFieldError(Subject, SubmitMessage(Subject));
      }
      if !SubmitOk(data, Message) {
        isValid := false;
        ShowFieldError(Message, SubmitMessage(Message));
      }
    }

    /** `showFormStatus`: the banner shows, and a timer to hide it is set. */
    method ShowFormStatus(kind: StatusKind, message: string)
      modifies this`status
      ensures status == Banner(Some(kind), message, true, old(status).pendingHides + 1)
    {
      status := Banner(Some(kind), message, true, status.pendingHides + 1);
    }

    /** A banner hide timer fires; it hides whatever the banner shows by then. */
    method HideStatus()
      requires status.pendingHides > 0
      modifies this`status
      ensures status == old(status).(shown := false, pendingHides := old(status).pendingHides - 1)
    {
      status := status.(shown := false, pendingHides := status.pendingHides - 1);
    }

    /** `handleFormSubmit` up to its `await`: a failing form shows the error banner and
        returns with the button enabled and no transport call; a valid one disables the
        button and hands its data to the transport. */
    method HandleFormSubmit() returns (data: map<Control, string>)
      requires Valid() && !submitDisabled
      modifies this`fields, this`submitDisabled, this`sending
      modifies this`status
      ensures Valid()
      ensures data == old(Snapshot())
      ensures if FormValid(data) then
          && submitDisabled && sending == Some(data) && fields == old(fields)
          && status == old(status)
        else
          && !submitDisabled && sending == None && fields == Annotated(old(fields), data)
          && status == Banner(Some(Failure), InvalidFormText, true, old(status).pendingHides + 1)
    {
      data := Snapshot();
      var ok := ValidateForm(data);
      if !ok {
        ShowFormStatus(Failure, InvalidFormText);
        return;
      }
      submitDisabled := true;
      sending := Some(data);
    }

    /** A 'submit' event. The listeners run in the order they were registered:
        `handleFormSubmit`, the autosave's draft-removal timer, the honeypot check. The
        honeypot's verdict `spam` changes nothing: its `preventDefault` was already done. */
    method Submit() returns (data: map<Control, string>, spam: bool)
      requires Valid() && !submitDisabled
      modifies this`fields, this`submitDisabled, this`sending
      modifies this`status, this`pendingClears
      ensures Valid()
      ensures data == old(Snapshot())
      ensures if FormValid(data) then
          && submitDisabled && sending == Some(data) && fields == old(fields)
          && status == old(status)
        else
          && !submitDisabled && sending == None && fields == Annotated(old(fields), data)
          && status == Banner(Some(Failure), InvalidFormText, true, old(status).pendingHides + 1)
      ensures pendingClears == old(pendingClears) + 1
      ensures spam == IsSpam(honeypot)
    {
      data := HandleFormSubmit();
      pendingClears := pendingClears + 1;
      spam := honeypot != "";
    }

    /** The transport settles with `success`, which the simulated call draws at random. On
        success the banner thanks the user and the form is reset (the honeypot too); on failure
        the error banner shows and the values stay. The button is enabled again either way. */
    method Settle(success: bool)
      requires Valid() && sending.Some?
      modifies this`fields, this`honeypot, this`submitDisabled, this`sending
      modifies this`status
      ensures Valid() && !submitDisabled && sending == None
      ensures success ==>
        status == Banner(Some(Success), SentText, true, old(status).pendingHides + 1)
        && fields == Reset(old(fields)) && honeypot == ""
      ensures !success ==>
        status == Banner(Some(Failure), FailedText, true, old(status).pendingHides + 1)
        && fields == old(fields) && honeypot == old(honeypot)
    {
      if success {
        ShowFormStatus(Success, SentText);
        fields := map n | n in fields :: fields[n].(value := "");
        honeypot := "";
      } else {
        ShowFormStatus(Failure, FailedText);
      }
      submitDisabled := false;
      sending := None;
    }

    /** The character counter's input handler on the message field: the counter counts the
        value, which is then cut to 500 code units, as far as whole characters go, when longer. */
    method UpdateCounter()
      requires Valid() && Message in fields
      modifies this`fields, this`counterText, this`counterTier
      ensures Valid()
      ensures var v := CounterInput(old(fields)[Message].value);
        && fields == old(fields)[Message := old(fields)[Message].(value := v.value)]
        && counterText == v.text && counterTier == v.tier
    {
      var value := fields[Message].value;
      var length := Length(value);
      counterText := CounterText(length);
      if length > MaxChars {
        counterTier := Over;
        fields := fields[Message := fields[Message].(value := Utf16Prefix(value, MaxChars))];
      } else if length > WarnChars {
        counterTier := Warning;
      } else {
        counterTier := Normal;
      }
    }

    /** An 'input' event on `field`, whose value the user has just made `typed`. The listeners
        run in registration order: the error is cleared, the counter handler runs when the
        field is the message, and the field's debounced autosave is called. */
    method Input(field: Control, typed: string, now: nat)
      requires Valid() && field in fields
      modifies this`fields, this`counterText, this`counterTier
      ensures Valid()
      ensures var kept := if field == Message then CounterInput(typed).value else typed;
        fields == old(fields)[field := FieldGroup(kept, None, Call(old(fields)[field].save, now))]
      ensures field == Message ==> counterText == CounterInput(typed).text && counterTier == CounterInput(typed).tier
      ensures field != Message ==> counterText == old(counterText) && counterTier == old(counterTier)
    {
      fields := fields[field := fields[field].(value := typed)];
      ClearFieldError(field);
      if field == Message {
        UpdateCounter();
      }
      fields := fields[field := fields[field].(save := Call(fields[field].save, now))];
    }

    /** A bot fills the hidden 'website' input. No listener watches it, so only its value
        changes; a person never sees it and leaves it empty. */
    method FillHoneypot(v: string)
      modifies this`honeypot
      ensures honeypot == v
    {
      honeypot := v;
    }

    /** A field's autosave timer fires: the value the field holds by then is stored. */
    method FireSave(field: Control, now: nat)
      requires field in fields && Due(fields[field].save, now)
      modifies this`storage, this`fields
      ensures storage == old(storage)[DraftKey(field) := old(fields)[field].value]
      ensures fields == old(fields)[field := old(fields)[field].(save := old(fields)[field].save.(timeout := None))]
    {
      storage := storage[DraftKey(field) := fields[field].value];
      fields := fields[field := fields[field].(save := fields[field].save.(timeout := None))];
    }

    /** A draft-removal timer fires: the key of every captured input goes, whatever became of
        the submission that set the timer; no other key is touched. */
    method FireClearDrafts()
      requires Valid() && pendingClears > 0
      modifies this`storage, this`pendingClears
      ensures Valid()
      ensures storage == old(storage) - DraftKeys(inputs)
      ensures pendingClears == old(pendingClears) - 1
    {
      var k := 0;
      while k < |inputs|
        invariant 0 <= k <= |inputs|
        invariant storage == old(storage) - DraftKeys(inputs[..k])
        invariant pendingClears == old(pendingClears)
      {
        assert DraftKeys(inputs[..k + 1]) == DraftKeys(inputs[..k]) + {DraftKey(inputs[k])} by {
          assert inputs[..k + 1] == inputs[..k] + [inputs[k]];
        }
        storage := storage - {DraftKey(inputs[k])};
        k := k + 1;
      }
      assert inputs[..k] == inputs;
      pendingClears := pendingClears - 1;
    }
  }
}
