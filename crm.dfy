/** Sales leads: required and optional fields, validation, `__str__`, ordering. */
module Crm {
  import opened Wrappers
  import opened Ordering
  import opened Common

  datatype Lead = Lead(
    name: string,
    goals: string,
    birthDate: Date,
    interests: Option<string>,
    email: Option<string>,
    phone: Option<string>)

  /** `Lead.objects.create(...)`: name, goals and birth_date must be given; the rest are null when omitted. */
  function NewLead(name: string, goals: string, birthDate: Date,
                   interests: Option<string> := None, email: Option<string> := None,
                   phone: Option<string> := None): Lead
  {
    Lead(name, goals, birthDate, interests, email, phone)
  }

  /** A lead created with only the required fields has null interests, email and phone. */
  lemma NewLeadOptionalFieldsNull(name: string, goals: string, birthDate: Date)
    ensures var l := NewLead(name, goals, birthDate);
      l.interests.None? && l.email.None? && l.phone.None? && l.name == name && l.goals == goals
  {
  }

  datatype LeadError = NameBlank | NameTooLong | GoalsBlank | EmailTooLong | PhoneTooLong

  const NameMaxLength: nat := 255
  const EmailMaxLength: nat := 254
  const PhoneMaxLength: nat := 20

  function TooLong(field: Option<string>, max: nat): bool {
    field.Some? && |field.value| > max
  }

  /**
   * `full_clean()` field checks, in field order: name and goals may not be
   * blank, name is at most 255 characters, email (EmailField default) at
   * most 254, phone at most 20.
   */
  function LeadErrors(l: Lead): seq<LeadError> {
    (if |l.name| == 0 then [NameBlank] else [])
    + (if |l.name| > NameMaxLength then [NameTooLong] else [])
    + (if |l.goals| == 0 then [GoalsBlank] else [])
    + (if TooLong(l.email, EmailMaxLength) then [EmailTooLong] else [])
    + (if TooLong(l.phone, PhoneMaxLength) then [PhoneTooLong] else [])
  }

  /** The declared constraints on a lead, stated field by field. */
  predicate LeadWellFormed(l: Lead) {
    && 0 < |l.name| <= NameMaxLength
    && |l.goals| > 0
    && (l.email.Some? ==> |l.email.value| <= EmailMaxLength)
    && (l.phone.Some? ==> |l.phone.value| <= PhoneMaxLength)
  }

  /** Validation reports no error exactly when the lead meets its declared constraints. */
  lemma LeadValidIff(l: Lead)
    ensures LeadErrors(l) == [] <==> LeadWellFormed(l)
  {
  }

  /** A 21-character phone number is rejected, a 20-character one is not. */
  lemma PhoneLengthBoundary(l: Lead)
    requires 0 < |l.name| <= NameMaxLength && |l.goals| > 0 && l.email.None?
    ensures l.phone.Some? && |l.phone.value| == 21 ==> LeadErrors(l) == [PhoneTooLong]
    ensures l.phone.Some? && |l.phone.value| == 20 ==> LeadErrors(l) == []
  {
  }

  /** `__str__`: the lead's name. */
  function LeadStr(l: Lead): string {
    l.name
  }

  lemma LeadStrIsName(name: string, goals: string, birthDate: Date)
    ensures LeadStr(NewLead(name, goals, birthDate)) == name
  {
  }

  function LeadCreatedAt(r: Row<Lead>): int {
    r.rec.createdAt
  }

  /** `ordering = ["-created_at"]`: newest first. */
  function LeadOrder(): (Row<Lead>, Row<Lead>) -> bool {
    ByNumberDesc(LeadCreatedAt)
  }

  /** The lead listing holds exactly the rows of the view, newest created first. */
  lemma LeadListing(view: Rows<Lead>, bound: nat)
    requires forall id | id in view :: id < bound
    ensures var s := Listing(view, bound, LeadOrder());
      && (forall i, j | 0 <= i < j < |s| :: s[i].rec.createdAt >= s[j].rec.createdAt)
      && (forall r :: r in s <==> r.id in view && view[r.id] == r.rec)
  {
    ByNumberIsTotalPreorder(LeadCreatedAt);
    ListingSpec(view, bound, LeadOrder());
    var s := Listing(view, bound, LeadOrder());
    forall i, j | 0 <= i < j < |s| ensures s[i].rec.createdAt >= s[j].rec.createdAt {
      assert LeadOrder()(s[i], s[j]);
      assert LeadOrder() == ByNumberDesc(LeadCreatedAt);
      assert ByNumberDesc(LeadCreatedAt)(s[i], s[j]) == (LeadCreatedAt(s[i]) >= LeadCreatedAt(s[j]));
    }
  }
}
