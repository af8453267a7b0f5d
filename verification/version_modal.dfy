/** The creation form's state transitions, taken out of the React
    component: the draft, the text typed into the tag box and the error
    map, and the handlers that change them. */
module VersionModal {
  import opened Version
  import opened Validation

  /** What the form holds between events. */
  datatype FormState = FormState(data: VersionData, tagInput: string, errors: ValidationErrors)

  /** The text inputs that carry a `name` attribute and go through the
      shared change handler. */
  datatype InputField = NameInput | SprintInput | DescriptionInput

  /** The error key an input's change handler clears. */
  function ErrorKey(f: InputField): Field
  {
    match f
    case NameInput => Name
    case SprintInput => Sprint
    case DescriptionInput => Description
  }

  /** The current text of an input. */
  function InputValue(d: VersionData, f: InputField): Option<string>
  {
    match f
    case NameInput => Some(d.name)
    case SprintInput => d.sprint
    case DescriptionInput => Some(d.description)
  }

  // ---------------------------------------------------------------------
  // The tag-list invariant
  // ---------------------------------------------------------------------

  predicate NoDuplicates<T(==)>(tags: seq<T>)
  {
    forall i, j | 0 <= i < j < |tags| :: tags[i] != tags[j]
  }

  /** A tag as the list keeps it: 1 to 20 characters over `[a-z0-9-_]`. */
  predicate IsStoredTag(t: string)
  {
    1 <= |t| <= MaxTagLength && forall i | 0 <= i < |t| :: IsFormattedTagChar(t[i])
  }

  /** The stored tags are exactly the tags that pass `isValidTag` and are
      already in formatted form. */
  lemma StoredTagIff(t: string)
    ensures IsStoredTag(t) <==> IsValidTag(t) && FormatTag(t) == t
  {
    IsValidTagIff(t);
    FormatTagFixedPoints(t);
    if forall i | 0 <= i < |t| :: IsFormattedTagChar(t[i]) {
      assert forall i | 0 <= i < |t| :: IsTagChar(t[i]);
    }
  }

  /** No tag occurs twice and every tag is stored in the form above. */
  predicate TagListInvariant(tags: seq<string>)
  {
    && NoDuplicates(tags)
    && forall i | 0 <= i < |tags| :: IsStoredTag(tags[i])
  }

  // ---------------------------------------------------------------------
  // Transitions
  // ---------------------------------------------------------------------

  /** The state the form is reset to whenever it opens: empty draft (with
      an empty, hence present, sprint), empty tag box, no errors. It
      satisfies the tag-list invariant. */
  function Open(): (s: FormState)
    ensures s.data.name == [] && s.data.sprint == Some([]) && s.data.description == []
    ensures s.data.tags == [] && s.tagInput == [] && s.errors == map[]
    ensures TagListInvariant(s.data.tags)
    ensures !IsValidDraft(s.data, [])
  {
    FormState(VersionData("", Some(""), [], ""), "", map[])
  }

  /** Writes `value` into the draft field behind input `f`. */
  function SetInput(d: VersionData, f: InputField, value: string): (r: VersionData)
    ensures InputValue(r, f) == Some(value)
    ensures r.tags == d.tags
    ensures forall g: InputField | g != f :: InputValue(r, g) == InputValue(d, g)
  {
    match f
    case NameInput => d.(name := value)
    case SprintInput => d.(sprint := Some(value))
    case DescriptionInput => d.(description := value)
  }

  /** `handleInputChange`: stores the new text and clears the error under
      that input's key only; every other error stays as it was. */
  function HandleInputChange(s: FormState, f: InputField, value: string): (r: FormState)
    ensures r.data == SetInput(s.data, f, value)
    ensures r.tagInput == s.tagInput
    ensures r.errors.Keys == s.errors.Keys - {ErrorKey(f)}
    ensures forall g | g in r.errors :: r.errors[g] == s.errors[g]
  {
    var d := SetInput(s.data, f, value);
    var key := ErrorKey(f);
    if key in s.errors then s.(data := d, errors := s.errors - {key})
    else s.(data := d)
  }

  /** `handleTagInputChange`: only the tag box changes. */
  function HandleTagInputChange(s: FormState, value: string): (r: FormState)
    ensures r.tagInput == value
    ensures r.data == s.data && r.errors == s.errors
  {
    s.(tagInput := value)
  }

  /** `addTag`: the formatted text of the tag box is appended to the list
      when it is non-empty, at most 20 characters long and not already in
      the list, and the box is then emptied; otherwise nothing changes.
      The 10-tag cap is not checked here. */
  function AddTag(s: FormState): (r: FormState)
    ensures var t := FormatTag(s.tagInput);
      if 1 <= |t| <= MaxTagLength && t !in s.data.tags then
        r == s.(data := s.data.(tags := s.data.tags + [t]), tagInput := "")
      else
        r == s
  {
    var tag := FormatTag(s.tagInput);
    FormattedTagValidity(s.tagInput);
    if tag != [] && IsValidTag(tag) && tag !in s.data.tags then
      s.(data := s.data.(tags := s.data.tags + [tag]), tagInput := "")
    else
      s
  }

  /** `handleTagInputKeyDown`: Enter and comma add the tag, any other key
      does nothing. */
  function HandleTagInputKeyDown(s: FormState, key: string): (r: FormState)
    ensures key == "Enter" || key == "," ==> r == AddTag(s)
    ensures key != "Enter" && key != "," ==> r == s
  {
    if key == "Enter" || key == "," then AddTag(s) else s
  }

  /** `tags.filter(tag => tag !== x)`: every occurrence of `x` goes, every
      other element keeps its multiplicity. */
  function Without<T(==)>(tags: seq<T>, x: T): (r: seq<T>)
    ensures |r| <= |tags|
    ensures x !in r
  {
    if tags == [] then []
    else (if tags[0] == x then [] else [tags[0]]) + Without(tags[1..], x)
  }

  /** Filtering removes every occurrence of `x` and keeps every other
      element as often as it occurred. */
  lemma {:induction false} WithoutCounts<T>(tags: seq<T>, x: T)
    ensures multiset(Without(tags, x)) == multiset(tags)[x := 0]
  {
    if tags != [] {
      var head, rest := [tags[0]], Without(tags[1..], x);
      WithoutCounts(tags[1..], x);
      assert tags == head + tags[1..];
      assert multiset(tags) == multiset(head) + multiset(tags[1..]);
      if tags[0] == x {
        assert Without(tags, x) == rest;
      } else {
        assert Without(tags, x) == head + rest;
        assert multiset(Without(tags, x)) == multiset(head) + multiset(rest);
      }
    }
  }

  /** Filtering works piecewise, so the survivors keep their order. */
  lemma {:induction false} WithoutAppend<T>(a: seq<T>, b: seq<T>, x: T)
    ensures Without(a + b, x) == Without(a, x) + Without(b, x)
  {
    if a == [] {
      assert a + b == b;
    } else {
      var ab, head := a + b, if a[0] == x then [] else [a[0]];
      assert ab[0] == a[0] && ab[1..] == a[1..] + b;
      WithoutAppend(a[1..], b, x);
      assert Without(ab, x) == head + (Without(a[1..], x) + Without(b, x));
      assert Without(a, x) == head + Without(a[1..], x);
    }
  }

  /** Filtering out a value that does not occur changes nothing. */
  lemma {:induction false} WithoutAbsent<T>(tags: seq<T>, x: T)
    requires x !in tags
    ensures Without(tags, x) == tags
  {
    if tags != [] {
      WithoutAbsent(tags[1..], x);
    }
  }

  /** In a duplicate-free list, removing a tag deletes exactly its one
      position and keeps the rest in order. */
  lemma WithoutUnique<T>(tags: seq<T>, i: nat)
    requires NoDuplicates(tags) && i < |tags|
    ensures Without(tags, tags[i]) == tags[..i] + tags[i + 1..]
  {
    NoDuplicatesSingleOccurrence(tags, i);
    WithoutAt(tags, i);
  }

  /** Removing the element at `i`, when it occurs nowhere else. */
  lemma WithoutAt<T>(tags: seq<T>, i: nat)
    requires i < |tags| && tags[i] !in tags[..i] && tags[i] !in tags[i + 1..]
    ensures Without(tags, tags[i]) == tags[..i] + tags[i + 1..]
  {
    var x, before, rest, after := tags[i], tags[..i], tags[i..], tags[i + 1..];
    assert tags == before + rest;
    WithoutAppend(before, rest, x);
    WithoutAbsent(before, x);
    WithoutHead(rest, x);
    assert rest[1..] == after;
    WithoutAbsent(after, x);
  }

  /** Filtering skips a leading occurrence of the removed value. */
  lemma WithoutHead<T>(tags: seq<T>, x: T)
    requires tags != [] && tags[0] == x
    ensures Without(tags, x) == Without(tags[1..], x)
  {
  }

  /** In a duplicate-free list an element occurs neither before nor after
      its own position. */
  lemma NoDuplicatesSingleOccurrence<T>(tags: seq<T>, i: nat)
    requires NoDuplicates(tags) && i < |tags|
    ensures tags[i] !in tags[..i] && tags[i] !in tags[i + 1..]
  {
    var a, b := tags[..i], tags[i + 1..];
    forall k | 0 <= k < |a| ensures a[k] != tags[i] { assert a[k] == tags[k]; }
    forall k | 0 <= k < |b| ensures b[k] != tags[i] { assert b[k] == tags[i + 1 + k]; }
  }

  /** Filtering keeps a list duplicate-free. */
  lemma {:induction false} WithoutNoDuplicates<T>(tags: seq<T>, x: T)
    requires NoDuplicates(tags)
    ensures NoDuplicates(Without(tags, x))
  {
    if tags != [] {
      var rest := Without(tags[1..], x);
      WithoutNoDuplicates(tags[1..], x);
      WithoutCounts(tags[1..], x);
      assert multiset(rest)[tags[0]] == 0 by {
        assert tags[0] !in tags[1..];
        assert multiset(tags[1..])[tags[0]] == 0;
      }
      if tags[0] != x {
        var r := [tags[0]] + rest;
        forall i, j | 0 <= i < j < |r| ensures r[i] != r[j] {
          if i == 0 {
            assert r[j] == rest[j - 1];
            assert r[j] in multiset(rest);
          } else {
            assert r[i] == rest[i - 1] && r[j] == rest[j - 1];
          }
        }
      }
    }
  }

  /** `removeTag`: drops every occurrence of `x` from the list; nothing
      else in the form changes. */
  function RemoveTag(s: FormState, x: string): (r: FormState)
    ensures multiset(r.data.tags) == multiset(s.data.tags)[x := 0]
    ensures r == s.(data := s.data.(tags := r.data.tags))
  {
    WithoutCounts(s.data.tags, x);
    s.(data := s.data.(tags := Without(s.data.tags, x)))
  }

  /** What submitting produced: the form afterwards, the draft handed to
      `onSubmit` (if any), and whether the form was closed. */
  datatype SubmitResult = SubmitResult(form: FormState, submitted: Option<VersionData>, closed: bool)

  /** `handleSubmit`. The draft is handed on exactly when it is valid;
      otherwise the error map becomes exactly the validator's map and
      nothing is submitted. `hostAccepts` stands for whether the promise
      returned by `onSubmit` resolves: on success the form closes, on
      failure the previous errors stay and `submit` is added. */
  function HandleSubmit(s: FormState, existing: seq<string>, hostAccepts: bool): (r: SubmitResult)
    ensures r.submitted.Some? <==> IsValidDraft(s.data, existing)
    ensures r.submitted.Some? ==> r.submitted.value == s.data
    ensures r.form.data == s.data && r.form.tagInput == s.tagInput
    ensures r.submitted.None? ==>
      r.form.errors == ValidateVersionData(s.data, existing) && r.form.errors != map[] && !r.closed
    ensures r.submitted.Some? ==> (r.closed <==> hostAccepts)
    ensures r.submitted.Some? && hostAccepts ==> r.form.errors == s.errors
    ensures r.submitted.Some? && !hostAccepts ==> r.form.errors == s.errors[Submit := SubmitFailed]
  {
    var validationErrors := ValidateVersionData(s.data, existing);
    if |validationErrors.Keys| > 0 then
      SubmitResult(s.(errors := validationErrors), None, false)
    else if hostAccepts then
      SubmitResult(s, Some(s.data), true)
    else
      SubmitResult(s.(errors := s.errors[Submit := SubmitFailed]), Some(s.data), false)
  }

  /** Submitting through the form element (the Create button, or Enter in
      an input): the name input is `required`, so the browser refuses an
      empty name before the submit event fires and nothing changes. A name
      of only whitespace passes that check and reaches `handleSubmit`. The
      check never changes which drafts are handed on: it only spares the
      error messages for a draft that would have been refused anyway. */
  function SubmitViaForm(s: FormState, existing: seq<string>, hostAccepts: bool): (r: SubmitResult)
    ensures r.submitted.Some? <==> IsValidDraft(s.data, existing)
    ensures s.data.name == [] ==> r.form == s && !r.closed
    ensures s.data.name != [] ==> r == HandleSubmit(s, existing, hostAccepts)
  {
    if s.data.name == [] then SubmitResult(s, None, false)
    else HandleSubmit(s, existing, hostAccepts)
  }

  /** On the freshly opened form, Create leaves the form as it is, while
      the Cmd/Ctrl+Enter shortcut, which calls `handleSubmit` directly,
      shows "Version name is required". */
  lemma RequiredNameBlocksFormSubmit(existing: seq<string>, hostAccepts: bool)
    ensures SubmitViaForm(Open(), existing, hostAccepts).form == Open()
    ensures Lookup(HandleSubmit(Open(), existing, hostAccepts).form.errors, Name) == Some(NameRequired)
  {
  }

  // ---------------------------------------------------------------------
  // Event sequences
  // ---------------------------------------------------------------------

  /** The user actions the form reacts to. `ClickCreate` submits through
      the form element, so the browser's check on the required name comes
      first; `SubmitShortcut` is Cmd/Ctrl+Enter, which calls `handleSubmit`
      directly. `hostAccepts` says whether `onSubmit` resolves. */
  datatype Event =
    | Reopen
    | Input(field: InputField, value: string)
    | TagInput(value: string)
    | TagKeyDown(key: string)
    | ClickAdd
    | ClickRemove(tag: string)
    | ClickCreate(hostAccepts: bool)
    | SubmitShortcut(hostAccepts: bool)

  /** The form after one event. */
  function Step(s: FormState, e: Event, existing: seq<string>): FormState
  {
    match e
    case Reopen => Open()
    case Input(f, v) => HandleInputChange(s, f, v)
    case TagInput(v) => HandleTagInputChange(s, v)
    case TagKeyDown(k) => HandleTagInputKeyDown(s, k)
    case ClickAdd => AddTag(s)
    case ClickRemove(t) => RemoveTag(s, t)
    case ClickCreate(ok) => SubmitViaForm(s, existing, ok).form
    case SubmitShortcut(ok) => HandleSubmit(s, existing, ok).form
  }

  /** The form after a sequence of events, in order. */
  function Run(s: FormState, events: seq<Event>, existing: seq<string>): FormState
    decreases |events|
  {
    if events == [] then s else Run(Step(s, events[0], existing), events[1..], existing)
  }

  /** Admitting a tag keeps the list invariant. */
  lemma AddTagPreservesInvariant(s: FormState)
    requires TagListInvariant(s.data.tags)
    ensures TagListInvariant(AddTag(s).data.tags)
  {
    var r := AddTag(s);
    if r != s {
      var t := FormatTag(s.tagInput);
      var tags := r.data.tags;
      assert tags == s.data.tags + [t];
      forall i | 0 <= i < |tags| ensures IsStoredTag(tags[i]) {
        if i < |s.data.tags| { assert tags[i] == s.data.tags[i]; }
      }
      forall i, j | 0 <= i < j < |tags| ensures tags[i] != tags[j] {
        if j == |s.data.tags| {
          assert tags[i] == s.data.tags[i];
        } else {
          assert tags[i] == s.data.tags[i] && tags[j] == s.data.tags[j];
        }
      }
    }
  }

  /** Removing a tag keeps the list invariant. */
  lemma RemoveTagPreservesInvariant(s: FormState, x: string)
    requires TagListInvariant(s.data.tags)
    ensures TagListInvariant(RemoveTag(s, x).data.tags)
  {
    var tags := RemoveTag(s, x).data.tags;
    WithoutNoDuplicates(s.data.tags, x);
    forall i | 0 <= i < |tags| ensures IsStoredTag(tags[i]) {
      assert tags[i] in multiset(tags);
      assert tags[i] in multiset(s.data.tags);
      var k :| 0 <= k < |s.data.tags| && s.data.tags[k] == tags[i];
    }
  }

  /** Every event keeps the tag list invariant. */
  lemma StepPreservesInvariant(s: FormState, e: Event, existing: seq<string>)
    requires TagListInvariant(s.data.tags)
    ensures TagListInvariant(Step(s, e, existing).data.tags)
  {
    match e
    case TagKeyDown(k) =>
      if k == "Enter" || k == "," { AddTagPreservesInvariant(s); }
    case ClickAdd => AddTagPreservesInvariant(s);
    case ClickRemove(t) => RemoveTagPreservesInvariant(s, t);
    case _ =>
  }

  /** Any sequence of events keeps the tag list invariant. */
  lemma {:induction false} RunPreservesInvariant(s: FormState, events: seq<Event>, existing: seq<string>)
    requires TagListInvariant(s.data.tags)
    ensures TagListInvariant(Run(s, events, existing).data.tags)
    decreases |events|
  {
    if events != [] {
      StepPreservesInvariant(s, events[0], existing);
      RunPreservesInvariant(Step(s, events[0], existing), events[1..], existing);
    }
  }

  /** Starting from the freshly opened form, the tag list is always
      duplicate-free, and every tag in it passes `isValidTag` and is its
      own `formatTag`, whatever the user does. */
  lemma TagListInvariantFromOpen(events: seq<Event>, existing: seq<string>)
    ensures var tags := Run(Open(), events, existing).data.tags;
      && NoDuplicates(tags)
      && forall i | 0 <= i < |tags| :: IsValidTag(tags[i]) && FormatTag(tags[i]) == tags[i]
  {
    RunPreservesInvariant(Open(), events, existing);
    var tags := Run(Open(), events, existing).data.tags;
    forall i | 0 <= i < |tags| ensures IsValidTag(tags[i]) && FormatTag(tags[i]) == tags[i] {
      StoredTagIff(tags[i]);
    }
  }

  /** `addTag` does not enforce the 10-tag cap: a full list still grows,
      and only the check on submit refuses the draft. */
  lemma AddTagIgnoresCap(s: FormState, existing: seq<string>, hostAccepts: bool)
    requires |s.data.tags| == MaxTags
    requires 1 <= |FormatTag(s.tagInput)| <= MaxTagLength && FormatTag(s.tagInput) !in s.data.tags
    ensures |AddTag(s).data.tags| == MaxTags + 1
    ensures Lookup(ValidateVersionData(AddTag(s).data, existing), Tags) == Some(TooManyTags)
    ensures HandleSubmit(AddTag(s), existing, hostAccepts).submitted.None?
  {
  }

  /** Editing one input leaves the verdicts for the other fields as they
      were, both in the stored errors and in a fresh validation. */
  lemma EditKeepsOtherVerdicts(s: FormState, f: InputField, value: string, existing: seq<string>, g: Field)
    requires g != ErrorKey(f) && g != Submit
    ensures Lookup(HandleInputChange(s, f, value).errors, g) == Lookup(s.errors, g)
    ensures Lookup(ValidateVersionData(HandleInputChange(s, f, value).data, existing), g)
         == Lookup(ValidateVersionData(s.data, existing), g)
  {
    ValidationIsFieldwise(s.data, HandleInputChange(s, f, value).data, existing);
  }

  /** The `tags` and `submit` errors have no input of their own, so no
      input edit clears them, and removing a tag does not clear `tags`. */
  lemma EditNeverClearsTagsOrSubmitErrors(s: FormState, f: InputField, value: string)
    ensures Lookup(HandleInputChange(s, f, value).errors, Tags) == Lookup(s.errors, Tags)
    ensures Lookup(HandleInputChange(s, f, value).errors, Submit) == Lookup(s.errors, Submit)
    ensures Lookup(RemoveTag(s, value).errors, Tags) == Lookup(s.errors, Tags)
  {
  }

  /** Submit resets the `tags` error only when it refuses the draft, and
      then to the fresh verdict. A submit that goes through keeps whatever
      `tags` error was shown before, even one the draft no longer deserves
      (the code never clears errors on that path). */
  lemma SubmitResetsTagsErrorOnlyWhenRefused(s: FormState, existing: seq<string>, hostAccepts: bool)
    ensures IsValidDraft(s.data, existing) ==>
      Lookup(HandleSubmit(s, existing, hostAccepts).form.errors, Tags) == Lookup(s.errors, Tags)
    ensures !IsValidDraft(s.data, existing) ==>
      Lookup(HandleSubmit(s, existing, hostAccepts).form.errors, Tags) == TagsError(s.data.tags)
  {
  }
}
