# Versionary version-draft validation, in Dafny

Versionary is a design-tool plugin that lets a user save the state of a
document as a named *version* with a sprint, tags and a description. The
part of it with real rules is the version-creation form: a validator that
checks a draft before it is submitted, two tag rules (`isValidTag` and the
`formatTag` normaliser), and the small state machine of the form that
adds and removes tags, clears errors as the user types and gates
submission on the validator.

This project models that part as pure Dafny functions over immutable
records and proves what the code promises about it.

- `js_string.dfy`, module `JsString`: the JavaScript string operations the
  rules use: `trim` (with the ECMAScript whitespace and line-terminator
  set) and `toLowerCase` (ASCII letters only).
- `version.dfy`, module `Version`: the `VersionData` draft, the error-map
  keys (`Field`), the messages (`Message`, with their display text) and
  `ValidationErrors`, a partial map from field to message.
- `validation.dfy`, module `Validation`: `validateVersionData` as four
  field rules collected into an error map; `isValidTag` as the semantics
  of its regular expression; `formatTag` as trim, lower-case, strip.
- `version_modal.dfy`, module `VersionModal`: the form state
  `(draft, tag box text, errors)` and its transitions (open/reset, input
  change, tag box change, tag key-down, add tag, remove tag, submit),
  plus event sequences and the tag-list invariant.

The main results:

- each field rule yields at most one message, in the source's priority
  order, and each message is characterised exactly (`NameError`,
  `DescriptionError`);
- the validator's map is empty exactly when a direct, field-by-field
  statement of validity holds, never contains `submit`, and each field's
  verdict depends only on that field;
- `formatTag` output uses only `[a-z0-9-_]`, is idempotent, and its fixed
  points are exactly the strings over that class; a formatted tag passes
  `isValidTag` exactly when it has 1 to 20 characters;
- from the freshly opened form, any sequence of user events keeps the tag
  list duplicate-free, formatted and valid;
- `removeTag` deletes every occurrence and keeps the order of the rest;
  `addTag` does not enforce the 10-tag cap, only submit does;
- `handleSubmit` hands the draft on exactly when it is valid, and
  otherwise replaces the errors with the validator's map. The Create
  button and Enter go through the browser's check on the `required` name
  input first, which stops an exactly empty name without changing the
  form; the Cmd/Ctrl+Enter shortcut calls `handleSubmit` directly. Either
  way, the drafts handed on are exactly the valid ones.

Points of the code worth knowing when reading the model:

- the `name` and `description` rules are `if / else if` chains, so each
  field gets at most one message;
- the length limits are measured on the untrimmed text, while emptiness
  and the duplicate check use the trimmed text;
- the duplicate check compares the trimmed name exactly, so it is
  case-sensitive;
- `sprint` is optional: an absent sprint never errors, and neither does an
  empty one, whose length is below the limit anyway;
- the "less than 50 characters" message is shown only above 50
  characters, so a 50-character name is accepted. The same holds for
  sprint (20) and description (500);
- `addTag` does not enforce the 10-tag cap; only the validator at submit
  time does.

## Model

| member | source | states |
|---|---|---|
| JsString.Trim | src/utils/validation.ts:7 | `trim` gives the empty string exactly for a blank input; otherwise the result starts and ends with a non-whitespace character, and an input that already does is returned unchanged |
| JsString.TrimIsMiddleSlice | src/utils/validation.ts:7 | `trim` returns the contiguous middle slice `s[i..j]` whose cut-off ends `s[..i]` and `s[j..]` are blank; with `Trim`'s contract this fixes the result exactly |
| JsString.TrimRemovesOnly | src/utils/validation.ts:42 | trimming only removes characters (the result's multiset is contained in the input's) |
| JsString.ToLowerCase | src/utils/validation.ts:42 | `toLowerCase` keeps the length and maps each character on its own: ASCII `A`..`Z` to `a`..`z`, every other character to itself |
| JsString.ToLowerCaseFixedPoints | src/utils/validation.ts:42 | lower-casing leaves no upper-case ASCII letter, and it is the identity exactly on strings without one |
| Validation.NameError | src/utils/validation.ts:7-13 | `name` gets "required" exactly when it is blank, "too long" exactly when it is not blank and longer than 50 (untrimmed), "duplicate" exactly when neither and its trimmed form is among the existing names; it is accepted exactly otherwise |
| Validation.SprintError | src/utils/validation.ts:16-18 | `sprint` errors exactly when present and longer than 20; an absent or empty sprint, or one of exactly 20, never errors |
| Validation.TagsError | src/utils/validation.ts:21-23 | `tags` errors exactly when there are more than 10, whatever their contents |
| Validation.DescriptionError | src/utils/validation.ts:26-30 | `description` gets "required" exactly when blank and "too long" exactly when not blank and longer than 500 (untrimmed); it is accepted exactly otherwise |
| Validation.Collect | src/utils/validation.ts:4-32 | the assembled map holds each field's message under its own key, nothing under `submit`, and is empty exactly when no rule produced a message |
| Validation.ValidateVersionData | src/utils/validation.ts:3-33 | each field's entry is that field's rule verdict, every message sits under its own field, `submit` is never present, and the map is empty exactly for a draft that meets all field limits directly |
| Validation.ValidationIsFieldwise | src/utils/validation.ts:3-33 | drafts that agree on a field get the same verdict for it (for `tags`, agreeing on the count suffices) |
| Validation.DuplicateCheckIsCaseSensitive | src/utils/validation.ts:11-12 | "V1" does not clash with "v1"; it clashes with "V1", also when typed with surrounding spaces |
| Validation.DuplicateNameScenario | src/utils/validation.ts:7-30 | re-creating "Homepage v1" with valid other fields gives exactly one error, the duplicate-name message |
| Validation.MatchesTagRepeatIff | src/utils/validation.ts:37 | the bounded repetition `^[a-zA-Z0-9-_]{lo,hi}$` matches exactly the strings of the class whose length lies between the bounds |
| Validation.IsValidTagIff | src/utils/validation.ts:35-38 | `isValidTag(t)` holds exactly when `t` has 1 to 20 characters, each an ASCII letter, digit, `-` or `_` |
| Validation.KeepFormattedTagChars | src/utils/validation.ts:42 | the strip step leaves only characters of `[a-z0-9-_]` and never lengthens its input |
| Validation.KeepFormattedTagCharsCounts | src/utils/validation.ts:42 | each character of the class survives as often as it occurs; no other character survives |
| Validation.KeepFormattedTagCharsAppend | src/utils/validation.ts:42 | stripping distributes over concatenation, so survivors keep their order |
| Validation.KeepFormattedTagCharsFixedPoints | src/utils/validation.ts:42 | stripping is the identity exactly on strings over the class |
| Validation.FormatTag | src/utils/validation.ts:40-43 | `formatTag` output uses only `[a-z0-9-_]` and is never longer than its input |
| Validation.FormatTagIdentity | src/utils/validation.ts:40-43 | a string over `[a-z0-9-_]` is its own format |
| Validation.FormatTagIdempotent | src/utils/validation.ts:40-43 | `formatTag(formatTag(t)) == formatTag(t)` |
| Validation.FormatTagFixedPoints | src/utils/validation.ts:40-43 | `formatTag(t) == t` exactly when `t` is a string over `[a-z0-9-_]` |
| Validation.FormattedTagValidity | src/utils/validation.ts:35-43 | a formatted tag passes `isValidTag` exactly when it has 1 to 20 characters |
| VersionModal.Open | src/components/version-creation/VersionModal.tsx:56-65 | opening resets name, sprint and description to the empty string (sprint present), the tags to none, the tag box to empty and the errors to none; that tag list meets the invariant and that draft is not yet valid |
| VersionModal.SetInput | src/components/version-creation/VersionModal.tsx:124-125 | the edited input reads the new value; tags and the other inputs are unchanged |
| VersionModal.HandleInputChange | src/components/version-creation/VersionModal.tsx:123-135 | editing a field stores the value and removes exactly that field's error key, keeping every other error as it was |
| VersionModal.HandleTagInputChange | src/components/version-creation/VersionModal.tsx:138-140 | typing in the tag box changes only the tag box |
| VersionModal.HandleTagInputKeyDown | src/components/version-creation/VersionModal.tsx:142-147 | Enter or comma adds the tag; any other key changes nothing |
| VersionModal.StoredTagIff | src/components/version-creation/VersionModal.tsx:149-158 | a tag the form can store (1 to 20 characters of `[a-z0-9-_]`) is exactly one that passes `isValidTag` and is its own format |
| VersionModal.AddTag | src/components/version-creation/VersionModal.tsx:149-158 | the formatted tag-box text is appended at the end and the box emptied exactly when it has 1 to 20 characters and is not already listed; otherwise the whole form (list and box) is unchanged |
| VersionModal.Without | src/components/version-creation/VersionModal.tsx:163 | filtering never lengthens the list and leaves no occurrence of the removed value |
| VersionModal.WithoutCounts | src/components/version-creation/VersionModal.tsx:163 | filtering drops every occurrence of the value and keeps every other element with its multiplicity |
| VersionModal.WithoutAppend | src/components/version-creation/VersionModal.tsx:163 | filtering distributes over concatenation, so the survivors keep their order |
| VersionModal.WithoutAbsent | src/components/version-creation/VersionModal.tsx:163 | filtering out a value that does not occur changes nothing |
| VersionModal.WithoutAt | src/components/version-creation/VersionModal.tsx:160-165 | removing a value that occurs only at position `i` deletes exactly that position and keeps the rest in order |
| VersionModal.WithoutUnique | src/components/version-creation/VersionModal.tsx:160-165 | in a duplicate-free list, removing the tag at position `i` gives the list with exactly that position deleted |
| VersionModal.WithoutNoDuplicates | src/components/version-creation/VersionModal.tsx:160-165 | removing a tag keeps a duplicate-free list duplicate-free |
| VersionModal.RemoveTag | src/components/version-creation/VersionModal.tsx:160-165 | `removeTag(x)` removes every `x`, keeps every other tag's multiplicity, and changes nothing else in the form |
| VersionModal.HandleSubmit | src/components/version-creation/VersionModal.tsx:34-53 | the draft is handed to `onSubmit` exactly when it is valid; otherwise the errors become exactly the validator's (non-empty) map and the form stays open; after a rejected `onSubmit` the old errors stay and `submit` is added, after an accepted one the form closes |
| VersionModal.SubmitViaForm | src/components/version-creation/VersionModal.tsx:179-193 | submitting through the form element changes nothing when the `required` name is exactly empty and is `handleSubmit` otherwise; either way the draft is handed on exactly when it is valid |
| VersionModal.RequiredNameBlocksFormSubmit | src/components/version-creation/VersionModal.tsx:81-83 | on the freshly opened form, Create leaves the form untouched while the Cmd/Ctrl+Enter shortcut shows "Version name is required" |
| VersionModal.AddTagPreservesInvariant | src/components/version-creation/VersionModal.tsx:149-158 | adding a tag keeps the list duplicate-free, formatted and valid |
| VersionModal.RemoveTagPreservesInvariant | src/components/version-creation/VersionModal.tsx:160-165 | removing a tag keeps the list duplicate-free, formatted and valid |
| VersionModal.StepPreservesInvariant | src/components/version-creation/VersionModal.tsx:123-165 | every user event keeps the tag-list invariant |
| VersionModal.RunPreservesInvariant | src/components/version-creation/VersionModal.tsx:123-165 | any sequence of events keeps the tag-list invariant |
| VersionModal.TagListInvariantFromOpen | src/components/version-creation/VersionModal.tsx:58-63 | starting from the freshly opened form, the tag list is duplicate-free, formatted and valid after any sequence of events |
| VersionModal.AddTagIgnoresCap | src/components/version-creation/VersionModal.tsx:149-158 | with 10 tags an admissible tag is still added (11 tags); the validator then flags `tags` and submit is refused |
| VersionModal.EditKeepsOtherVerdicts | src/components/version-creation/VersionModal.tsx:123-135 | editing one input keeps the stored error and the fresh validation verdict of every other field |
| VersionModal.EditNeverClearsTagsOrSubmitErrors | src/components/version-creation/VersionModal.tsx:127-134 | no input edit clears a `tags` or `submit` error, and removing a tag does not clear a `tags` error |
| VersionModal.SubmitResetsTagsErrorOnlyWhenRefused | src/components/version-creation/VersionModal.tsx:38-52 | a refused submit shows the fresh `tags` verdict; a submit that goes through keeps the `tags` error shown before, even a stale one |

## Left out

- The React machinery: hooks, effects, rendering, and the keyboard
  listener for Escape. The model processes one event at a time and
  completes each submit, host answer included, before the next event.
- Interleaving with a pending `onSubmit`: `isSubmitting` disables only the
  Cancel and Create buttons
  (src/components/version-creation/VersionModal.tsx:279, 286). The inputs,
  the tag box, Add and the tag-remove buttons stay live while the promise
  is pending. The Cmd/Ctrl+Enter listener (lines 81-83) calls
  `handleSubmit` without looking at the flag, so a second `onSubmit` can
  start. After such an edit, a rejection adds `submit` to the errors as
  they are at rejection time, not to those the submit saw. None of these
  interleavings are modelled.
- The browser's own prompt for the empty `required` name: the model
  records only that such a form submission changes nothing
  (`SubmitViaForm`).
- The asynchronous `onSubmit` call: whether its promise resolves or
  rejects is the `hostAccepts` parameter of `HandleSubmit`; what the host
  does with the draft is not modelled.
- The mock preview loaded on open and its rendering component
  (`PreviewSection`): fixed presentation data with no stated behaviour.
- The DOM bootstrap, the button that posts a message, and the plugin host
  code, which only shows a notification: they contain no rules.
- The version store, the document snapshot codec, ID and metadata
  generation, and restoring a version: none of these exist in the code,
  so modelling them would invent behaviour.
- JsString.ToLowerCase: lower-cases ASCII letters only. JavaScript also
  maps other letters, and a few non-ASCII ones (such as U+0130 or the
  Kelvin sign) lower-case to ASCII letters that the strip step would then
  keep; the model drops them instead.
- Lengths are counted in Dafny characters (code points), not UTF-16 code
  units as JavaScript's `.length` does, so the 20/50/500 limits differ
  for text outside the Basic Multilingual Plane.
- The wording of the error messages carries no logic; it is kept as
  display text (`MessageText`) and nothing is proved about it.
