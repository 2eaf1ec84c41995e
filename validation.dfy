/** src/middlewares/validation.ts: the two Express request validators. Each
    either passes the request on (`next()`) or answers 400 with a message.
    src/index.ts:28-29 runs them in front of `POST /api/event-types` and
    `POST /api/meetings`, so a body they reject never reaches
    `createEventType` or `createMeeting`. */
module Validation {
  import opened Common
  import opened Store
  import EventTypeController

  /** What a middleware does with a request. */
  datatype Verdict = Next | Reject(status: int, message: string)

  // validateEventTypeInput

  /** A character of `[a-z0-9-]`. */
  predicate SlugChar(c: char) {
    ('a' <= c <= 'z') || ('0' <= c <= '9') || c == '-'
  }

  /** `/^[a-z0-9-]+$/.test(slug)`. */
  predicate SlugPattern(s: string) {
    |s| > 0 && forall k :: 0 <= k < |s| ==> SlugChar(s[k])
  }

  /** `validateEventTypeInput(req, res, next)`: missing fields, then a
      non-positive duration, then a malformed slug. */
  function ValidateEventTypeInput(name: Field<string>, duration: Field<int>, slug: Field<string>): Verdict {
    if !TruthyText(name) || !TruthyNumber(duration) || !TruthyText(slug) then
      Reject(BAD_REQUEST, "Missing required fields: name, duration, slug")
    else if duration.value <= 0 then Reject(BAD_REQUEST, "Duration must be positive")
    else if !SlugPattern(slug.value) then Reject(BAD_REQUEST, "Slug must be lowercase alphanumeric with hyphens")
    else Next
  }

  /** `next()` is called exactly when the name is non-empty, the duration
      positive and the slug non-empty over `[a-z0-9-]`; each rejection names
      the first check that fails, in the order missing, duration, slug. */
  lemma EventTypeInputVerdict(name: Field<string>, duration: Field<int>, slug: Field<string>)
    ensures ValidateEventTypeInput(name, duration, slug) == Next <==>
      && name.Given? && name.value != ""
      && duration.Given? && duration.value > 0
      && slug.Given? && SlugPattern(slug.value)
    ensures !TruthyText(name) || !TruthyNumber(duration) || !TruthyText(slug) ==>
      ValidateEventTypeInput(name, duration, slug) == Reject(BAD_REQUEST, "Missing required fields: name, duration, slug")
    ensures TruthyText(name) && TruthyNumber(duration) && TruthyText(slug) && duration.value < 0 ==>
      ValidateEventTypeInput(name, duration, slug) == Reject(BAD_REQUEST, "Duration must be positive")
    ensures TruthyText(name) && duration.Given? && duration.value > 0 && TruthyText(slug) && !SlugPattern(slug.value) ==>
      ValidateEventTypeInput(name, duration, slug) == Reject(BAD_REQUEST, "Slug must be lowercase alphanumeric with hyphens")
  {
  }

  /** A slug the validator accepts is already lower case, so the Express
      controller's `toLowerCase` would store it unchanged. */
  lemma {:induction false} AcceptedSlugIsLower(s: string)
    requires forall k :: 0 <= k < |s| ==> SlugChar(s[k])
    ensures EventTypeController.Lower(s) == s
  {
    if s != [] {
      AcceptedSlugIsLower(s[1..]);
    }
  }

  // validateBookingInput

  /** JavaScript's `\s`: the white-space and line-terminator characters. */
  predicate IsSpace(c: char) {
    || c == '\t' || c == '\n' || c == '\U{B}' || c == '\U{C}' || c == '\r' || c == ' '
    || c == '\U{A0}' || c == '\U{1680}' || ('\U{2000}' <= c <= '\U{200A}')
    || c == '\U{2028}' || c == '\U{2029}' || c == '\U{202F}' || c == '\U{205F}'
    || c == '\U{3000}' || c == '\U{FEFF}'
  }

  /** A character of `[^\s@]`. */
  predicate Plain(c: char) {
    !IsSpace(c) && c != '@'
  }

  predicate AllPlain(s: string) {
    forall k :: 0 <= k < |s| ==> Plain(s[k])
  }

  /** `/^[^\s@]+@[^\s@]+\.[^\s@]+$/.test(s)` read as its structure: `s` splits
      at an '@' (index `i`) and a later '.' (index `j`) into three non-empty
      runs of `[^\s@]`. */
  ghost predicate EmailPattern(s: string) {
    exists i, j :: 0 < i && i + 1 < j < |s| - 1 && s[i] == '@' && s[j] == '.'
      && AllPlain(s[..i]) && AllPlain(s[i + 1..j]) && AllPlain(s[j + 1..])
  }

  /** How often `c` occurs in `s`. */
  function Count(s: string, c: char): nat {
    if s == [] then 0 else (if s[0] == c then 1 else 0) + Count(s[1..], c)
  }

  /** The first index of `c` in `s`, or `|s|`. */
  function IndexOf(s: string, c: char): (r: nat)
    ensures r <= |s|
    ensures r < |s| ==> s[r] == c
    ensures forall k :: 0 <= k < r ==> s[k] != c
  {
    if s == [] then 0 else if s[0] == c then 0 else 1 + IndexOf(s[1..], c)
  }

  /** The email shape, stated directly: exactly one '@', no white space, a
      non-empty part before the '@', and after it a '.' with text on both
      sides. */
  predicate EmailShape(s: string) {
    var at := IndexOf(s, '@');
    && Count(s, '@') == 1
    && (forall k :: 0 <= k < |s| ==> !IsSpace(s[k]))
    && at > 0
    && exists j :: at + 1 < j < |s| - 1 && s[j] == '.'
  }

  /** When `s[i] == c`, `c` occurs once exactly when no other index holds it. */
  lemma {:induction false} CountOnce(s: string, c: char, i: nat)
    requires i < |s| && s[i] == c
    ensures Count(s, c) == 1 <==> forall k :: 0 <= k < |s| && k != i ==> s[k] != c
  {
    if i == 0 {
      CountNone(s[1..], c);
      assert forall k :: 1 <= k < |s| ==> s[k] == s[1..][k - 1];
    } else {
      CountOnce(s[1..], c, i - 1);
      CountNone(s[1..], c);
      assert s[1..][i - 1] == c;
      assert forall k :: 1 <= k < |s| ==> s[k] == s[1..][k - 1];
    }
  }

  /** `c` does not occur exactly when its count is 0. */
  lemma {:induction false} CountNone(s: string, c: char)
    ensures Count(s, c) == 0 <==> forall k :: 0 <= k < |s| ==> s[k] != c
  {
    if s != [] {
      CountNone(s[1..], c);
      assert forall k :: 1 <= k < |s| ==> s[k] == s[1..][k - 1];
    }
  }

  /** The direct statement of the shape is what the regular expression
      accepts. */
  lemma EmailShapeIsPattern(s: string)
    ensures EmailShape(s) <==> EmailPattern(s)
  {
    if EmailShape(s) {
      ShapeIsPattern(s);
    }
    if EmailPattern(s) {
      PatternIsShape(s);
    }
  }

  /** A text of the shape splits at its only '@' and a later '.' into three
      runs of `[^\s@]`. */
  lemma ShapeIsPattern(s: string)
    requires EmailShape(s)
    ensures EmailPattern(s)
  {
    var at := IndexOf(s, '@');
    CountOnce(s, '@', at);
    var j :| at + 1 < j < |s| - 1 && s[j] == '.';
    forall k | 0 <= k < |s| && k != at
      ensures Plain(s[k])
    {
    }
    var pre, mid, post := s[..at], s[at + 1..j], s[j + 1..];
    forall k | 0 <= k < |pre| ensures Plain(pre[k]) { assert pre[k] == s[k]; }
    forall k | 0 <= k < |mid| ensures Plain(mid[k]) { assert mid[k] == s[at + 1 + k]; }
    forall k | 0 <= k < |post| ensures Plain(post[k]) { assert post[k] == s[j + 1 + k]; }
  }

  /** A text the regular expression accepts has exactly one '@', which is its
      first, no white space, and a '.' with text on both sides after it. */
  lemma PatternIsShape(s: string)
    requires EmailPattern(s)
    ensures EmailShape(s)
  {
    var i, j :| 0 < i && i + 1 < j < |s| - 1 && s[i] == '@' && s[j] == '.'
      && AllPlain(s[..i]) && AllPlain(s[i + 1..j]) && AllPlain(s[j + 1..]);
    forall k | 0 <= k < |s| && k != i ensures Plain(s[k]) {
      if k < i { assert s[k] == s[..i][k]; }
      else if k < j { assert s[k] == s[i + 1..j][k - i - 1]; }
      else if k > j { assert s[k] == s[j + 1..][k - j - 1]; }
    }
    CountOnce(s, '@', i);
    assert IndexOf(s, '@') == i;
  }

  /** `validateBookingInput(req, res, next)`: missing fields, then the email
      shape. The id and the start time are read as the texts the body
      carries. */
  function ValidateBookingInput(inviteeName: Field<string>, inviteeEmail: Field<string>,
                                eventTypeId: Field<string>, startTime: Field<string>): Verdict {
    if !TruthyText(inviteeName) || !TruthyText(inviteeEmail) || !TruthyText(eventTypeId) || !TruthyText(startTime) then
      Reject(BAD_REQUEST, "Missing required fields")
    else if !EmailShape(inviteeEmail.value) then Reject(BAD_REQUEST, "Invalid email format")
    else Next
  }

  /** `next()` is called exactly when all four fields are truthy (given and
      not "") and the email matches the pattern; a falsy field is rejected as
      "Missing required fields", and with the fields truthy a non-matching
      email is rejected as "Invalid email format". */
  lemma BookingInputVerdict(inviteeName: Field<string>, inviteeEmail: Field<string>,
                            eventTypeId: Field<string>, startTime: Field<string>)
    ensures ValidateBookingInput(inviteeName, inviteeEmail, eventTypeId, startTime) == Next <==>
      && TruthyText(inviteeName) && TruthyText(inviteeEmail) && TruthyText(eventTypeId) && TruthyText(startTime)
      && EmailPattern(inviteeEmail.value)
    ensures !TruthyText(inviteeName) || !TruthyText(inviteeEmail) || !TruthyText(eventTypeId) || !TruthyText(startTime) ==>
      ValidateBookingInput(inviteeName, inviteeEmail, eventTypeId, startTime) == Reject(BAD_REQUEST, "Missing required fields")
    ensures TruthyText(inviteeName) && TruthyText(inviteeEmail) && TruthyText(eventTypeId) && TruthyText(startTime)
            && !EmailPattern(inviteeEmail.value) ==>
      ValidateBookingInput(inviteeName, inviteeEmail, eventTypeId, startTime) == Reject(BAD_REQUEST, "Invalid email format")
  {
    if inviteeEmail.Given? {
      EmailShapeIsPattern(inviteeEmail.value);
    }
  }
}
