/** The draft validator and the tag rules: `validateVersionData`,
    `isValidTag` and `formatTag`. */
module Validation {
  import opened Version
  import opened JsString

  const MaxNameLength: nat := 50
  const MaxSprintLength: nat := 20
  const MaxTags: nat := 10
  const MaxDescriptionLength: nat := 500
  const MaxTagLength: nat := 20

  // ---------------------------------------------------------------------
  // Field rules
  // ---------------------------------------------------------------------

  /** The rule for `name`, in its fixed priority order: required, then too
      long (measured on the untrimmed name), then duplicate (the trimmed
      name, compared case-sensitively). At most one message results. */
  function NameError(name: string, existing: seq<string>): (r: Option<Message>)
    ensures r == Some(NameRequired) <==> IsBlank(name)
    ensures r == Some(NameTooLong) <==> !IsBlank(name) && |name| > MaxNameLength
    ensures r == Some(NameDuplicate) <==> !IsBlank(name) && |name| <= MaxNameLength && Trim(name) in existing
    ensures r.None? <==> !IsBlank(name) && |name| <= MaxNameLength && Trim(name) !in existing
    ensures r.Some? ==> FieldOf(r.value) == Name
  {
    if Trim(name) == [] then Some(NameRequired)
    else if |name| > MaxNameLength then Some(NameTooLong)
    else if Trim(name) in existing then Some(NameDuplicate)
    else None
  }

  /** The rule for `sprint`: only a present, non-empty sprint can fail, and
      it fails exactly when it is longer than 20 characters. */
  function SprintError(sprint: Option<string>): (r: Option<Message>)
    ensures r.Some? <==> sprint.Some? && |sprint.value| > MaxSprintLength
    ensures r.Some? ==> r.value == SprintTooLong && FieldOf(r.value) == Sprint
  {
    match sprint
    case None => None
    case Some(sp) => if sp != [] && |sp| > MaxSprintLength then Some(SprintTooLong) else None
  }

  /** The rule for `tags`: only the count matters, never the contents. */
  function TagsError(tags: seq<string>): (r: Option<Message>)
    ensures r.Some? <==> |tags| > MaxTags
    ensures r.Some? ==> r.value == TooManyTags && FieldOf(r.value) == Tags
  {
    if |tags| > MaxTags then Some(TooManyTags) else None
  }

  /** The rule for `description`: required first, then too long (measured
      on the untrimmed text). */
  function DescriptionError(description: string): (r: Option<Message>)
    ensures r == Some(DescriptionRequired) <==> IsBlank(description)
    ensures r == Some(DescriptionTooLong) <==> !IsBlank(description) && |description| > MaxDescriptionLength
    ensures r.None? <==> !IsBlank(description) && |description| <= MaxDescriptionLength
    ensures r.Some? ==> FieldOf(r.value) == Description
  {
    if Trim(description) == [] then Some(DescriptionRequired)
    else if |description| > MaxDescriptionLength then Some(DescriptionTooLong)
    else None
  }

  /** The error, if any, a validation map holds for a field. */
  function Lookup(errors: ValidationErrors, f: Field): Option<Message>
  {
    if f in errors then Some(errors[f]) else None
  }

  /** A draft every rule accepts, stated directly on its fields. */
  predicate IsValidDraft(d: VersionData, existing: seq<string>)
  {
    && !IsBlank(d.name) && |d.name| <= MaxNameLength && Trim(d.name) !in existing
    && (d.sprint.Some? ==> |d.sprint.value| <= MaxSprintLength)
    && |d.tags| <= MaxTags
    && !IsBlank(d.description) && |d.description| <= MaxDescriptionLength
  }

  /** Collects the four verdicts into an error map, in the order the
      source assigns them; a field with no message gets no key. */
  function Collect(n: Option<Message>, sp: Option<Message>, t: Option<Message>, ds: Option<Message>): (r: ValidationErrors)
    ensures (n.Some? ==> FieldOf(n.value) == Name) && (sp.Some? ==> FieldOf(sp.value) == Sprint)
      && (t.Some? ==> FieldOf(t.value) == Tags) && (ds.Some? ==> FieldOf(ds.value) == Description)
      ==> WellFiled(r)
    ensures Lookup(r, Name) == n && Lookup(r, Sprint) == sp
    ensures Lookup(r, Tags) == t && Lookup(r, Description) == ds
    ensures Submit !in r
    ensures r == map[] <==> n.None? && sp.None? && t.None? && ds.None?
  {
    var e1: ValidationErrors := if n.Some? then map[Name := n.value] else map[];
    var e2 := if sp.Some? then e1[Sprint := sp.value] else e1;
    var e3 := if t.Some? then e2[Tags := t.value] else e2;
    if ds.Some? then e3[Description := ds.value] else e3
  }

  /** `validateVersionData`: every field rule is evaluated, each one's
      message lands under its own key, `submit` is never set, and the map
      is empty exactly for a valid draft. */
  function ValidateVersionData(d: VersionData, existing: seq<string>): (r: ValidationErrors)
    ensures Submit !in r
    ensures WellFiled(r)
    ensures Lookup(r, Name) == NameError(d.name, existing)
    ensures Lookup(r, Sprint) == SprintError(d.sprint)
    ensures Lookup(r, Tags) == TagsError(d.tags)
    ensures Lookup(r, Description) == DescriptionError(d.description)
    ensures r == map[] <==> IsValidDraft(d, existing)
  {
    var n := NameError(d.name, existing);
    var sp := SprintError(d.sprint);
    var t := TagsError(d.tags);
    var ds := DescriptionError(d.description);
    Collect(n, sp, t, ds)
  }

  /** Each field's verdict depends only on that field (and, for `name`, on
      the existing names): drafts that agree on a field get the same
      verdict for it. */
  lemma ValidationIsFieldwise(d1: VersionData, d2: VersionData, existing: seq<string>)
    ensures d1.name == d2.name ==>
      Lookup(ValidateVersionData(d1, existing), Name) == Lookup(ValidateVersionData(d2, existing), Name)
    ensures d1.sprint == d2.sprint ==>
      Lookup(ValidateVersionData(d1, existing), Sprint) == Lookup(ValidateVersionData(d2, existing), Sprint)
    ensures |d1.tags| == |d2.tags| ==>
      Lookup(ValidateVersionData(d1, existing), Tags) == Lookup(ValidateVersionData(d2, existing), Tags)
    ensures d1.description == d2.description ==>
      Lookup(ValidateVersionData(d1, existing), Description) == Lookup(ValidateVersionData(d2, existing), Description)
  {
  }

  /** The duplicate check is case-sensitive: "V1" does not clash with "v1". */
  lemma DuplicateCheckIsCaseSensitive()
    ensures NameError("V1", ["v1"]).None?
    ensures NameError("V1", ["V1"]) == Some(NameDuplicate)
    ensures NameError("  V1 ", ["V1"]) == Some(NameDuplicate)
  {
    assert !IsWhitespace('V') && !IsWhitespace('1');
    assert "  V1 "[2] == 'V';
    assert Trim("V1") == "V1";
    assert Trim("  V1 ") == Trim(" V1 ") == Trim("V1 ") == Trim("V1");
  }

  /** Re-submitting a name already stored is refused with exactly one
      error, under `name`. */
  lemma DuplicateNameScenario()
    ensures ValidateVersionData(
      VersionData("Homepage v1", None, ["ui", "ux"], "Initial redesign"),
      ["Homepage v1"]) == map[Name := NameDuplicate]
  {
    var d := VersionData("Homepage v1", None, ["ui", "ux"], "Initial redesign");
    assert !IsWhitespace(d.name[0]) && !IsWhitespace(d.name[10]);
    assert Trim(d.name) == d.name;
    assert NameError(d.name, ["Homepage v1"]) == Some(NameDuplicate);
    assert !IsWhitespace(d.description[0]);
    var r := ValidateVersionData(d, ["Homepage v1"]);
    assert r.Keys == {Name};
  }

  // ---------------------------------------------------------------------
  // Tag rules
  // ---------------------------------------------------------------------

  /** The character class `[a-zA-Z0-9-_]` of `isValidTag`. */
  predicate IsTagChar(c: char)
  {
    ('a' <= c <= 'z') || ('A' <= c <= 'Z') || ('0' <= c <= '9') || c == '-' || c == '_'
  }

  /** The character class `[a-z0-9-_]` that `formatTag` keeps. */
  predicate IsFormattedTagChar(c: char)
  {
    ('a' <= c <= 'z') || ('0' <= c <= '9') || c == '-' || c == '_'
  }

  /** Whether all of `s` matches `^[a-zA-Z0-9-_]{lo,hi}$`, following the
      pattern one character at a time. */
  predicate MatchesTagRepeat(s: string, lo: nat, hi: nat)
  {
    if s == [] then lo == 0
    else hi > 0 && IsTagChar(s[0]) && MatchesTagRepeat(s[1..], if lo == 0 then 0 else lo - 1, hi - 1)
  }

  /** `isValidTag`: the pattern `^[a-zA-Z0-9-_]{1,20}$`. */
  predicate IsValidTag(tag: string)
  {
    MatchesTagRepeat(tag, 1, MaxTagLength)
  }

  /** The bounded repetition matches exactly the strings of the class
      whose length lies in the bounds. */
  lemma {:induction false} MatchesTagRepeatIff(s: string, lo: nat, hi: nat)
    ensures MatchesTagRepeat(s, lo, hi) <==>
      lo <= |s| <= hi && forall i | 0 <= i < |s| :: IsTagChar(s[i])
  {
    if s != [] {
      var lo' := if lo == 0 then 0 else lo - 1;
      if hi > 0 {
        MatchesTagRepeatIff(s[1..], lo', hi - 1);
        if lo <= |s| <= hi && forall i | 0 <= i < |s| :: IsTagChar(s[i]) {
          assert forall i | 0 <= i < |s[1..]| :: s[1..][i] == s[i + 1];
        }
      }
    }
  }

  /** `isValidTag(t)` holds exactly when `t` has 1 to 20 characters, each an
      ASCII letter, digit, `-` or `_`. */
  lemma IsValidTagIff(tag: string)
    ensures IsValidTag(tag) <==>
      1 <= |tag| <= MaxTagLength && forall i | 0 <= i < |tag| :: IsTagChar(tag[i])
  {
    MatchesTagRepeatIff(tag, 1, MaxTagLength);
  }

  /** The `replace(/[^a-z0-9-_]/g, '')` step: keeps the characters of the
      class, in order, and drops every other one. */
  function KeepFormattedTagChars(s: string): (r: string)
    ensures forall i | 0 <= i < |r| :: IsFormattedTagChar(r[i])
    ensures |r| <= |s|
  {
    if s == [] then []
    else (if IsFormattedTagChar(s[0]) then [s[0]] else []) + KeepFormattedTagChars(s[1..])
  }

  /** Every character of the class survives stripping as often as it
      occurs, and no other character survives. */
  lemma {:induction false} KeepFormattedTagCharsCounts(s: string, c: char)
    ensures multiset(KeepFormattedTagChars(s))[c] == if IsFormattedTagChar(c) then multiset(s)[c] else 0
  {
    if s != [] {
      KeepFormattedTagCharsCounts(s[1..], c);
      assert s == [s[0]] + s[1..];
    }
  }

  /** Stripping works piecewise, so the kept characters stay in order. */
  lemma {:induction false} KeepFormattedTagCharsAppend(a: string, b: string)
    ensures KeepFormattedTagChars(a + b) == KeepFormattedTagChars(a) + KeepFormattedTagChars(b)
  {
    if a == [] {
      assert a + b == b;
    } else {
      assert (a + b)[0] == a[0] && (a + b)[1..] == a[1..] + b;
      KeepFormattedTagCharsAppend(a[1..], b);
    }
  }

  /** Stripping changes nothing exactly when nothing needs stripping. */
  lemma {:induction false} KeepFormattedTagCharsFixedPoints(s: string)
    ensures KeepFormattedTagChars(s) == s <==> forall i | 0 <= i < |s| :: IsFormattedTagChar(s[i])
  {
    if s != [] && forall i | 0 <= i < |s| :: IsFormattedTagChar(s[i]) {
      assert IsFormattedTagChar(s[0]);
      assert forall i | 0 <= i < |s[1..]| :: s[1..][i] == s[i + 1];
      KeepFormattedTagCharsFixedPoints(s[1..]);
    }
  }

  /** `formatTag`: trim, lower-case, then strip every character outside
      `[a-z0-9-_]`. The result uses only that class and never grows. */
  function FormatTag(tag: string): (r: string)
    ensures forall i | 0 <= i < |r| :: IsFormattedTagChar(r[i])
    ensures |r| <= |tag|
  {
    KeepFormattedTagChars(ToLowerCase(Trim(tag)))
  }

  /** A string of formatted-tag characters is its own format. */
  lemma FormatTagIdentity(t: string)
    requires forall i | 0 <= i < |t| :: IsFormattedTagChar(t[i])
    ensures FormatTag(t) == t
  {
    assert Trim(t) == t by {
      if t != [] {
        assert IsFormattedTagChar(t[0]) && IsFormattedTagChar(t[|t| - 1]);
      }
    }
    assert ToLowerCase(t) == t by {
      ToLowerCaseFixedPoints(t);
    }
    KeepFormattedTagCharsFixedPoints(t);
  }

  /** `formatTag` is idempotent. */
  lemma FormatTagIdempotent(tag: string)
    ensures FormatTag(FormatTag(tag)) == FormatTag(tag)
  {
    FormatTagIdentity(FormatTag(tag));
  }

  /** The fixed points of `formatTag` are exactly the strings over `[a-z0-9-_]`. */
  lemma FormatTagFixedPoints(tag: string)
    ensures FormatTag(tag) == tag <==> forall i | 0 <= i < |tag| :: IsFormattedTagChar(tag[i])
  {
    if forall i | 0 <= i < |tag| :: IsFormattedTagChar(tag[i]) {
      FormatTagIdentity(tag);
    }
  }

  /** A formatted tag passes `isValidTag` exactly when it is non-empty and
      at most 20 characters long. */
  lemma FormattedTagValidity(tag: string)
    ensures IsValidTag(FormatTag(tag)) <==> 1 <= |FormatTag(tag)| <= MaxTagLength
  {
    var t := FormatTag(tag);
    IsValidTagIff(t);
    assert forall i | 0 <= i < |t| :: IsTagChar(t[i]) by {
      forall i | 0 <= i < |t| ensures IsTagChar(t[i]) {
        assert IsFormattedTagChar(t[i]);
      }
    }
  }
}
