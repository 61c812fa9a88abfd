/** The two-valued outcome of a verification (JGP.Security/VerificationOutcome.cs). */
module VerificationOutcomes {

  import opened Wrappers

  /** The enum's two named members, Failure (declared first) and Success. */
  datatype VerificationOutcome = Failure | Success

  /** The integer that the enum assigns to each member. C# numbers the
      members 0 and 1, and converting that number back yields the member. */
  function Underlying(outcome: VerificationOutcome): (v: int)
    ensures v == 0 || v == 1
    ensures v == 0 <==> outcome == Failure
  {
    match outcome
    case Failure => 0
    case Success => 1
  }

  /** The named member with underlying value `v`, if there is one: exactly
      the values 0 and 1 name a member, and each names the member whose
      underlying value it is. */
  function FromUnderlying(v: int): (outcome: Option<VerificationOutcome>)
    ensures outcome.Some? <==> v == 0 || v == 1
  {
    if v == 0 then Some(Failure)
    else if v == 1 then Some(Success)
    else None
  }

  /** Converting a member to its number and back yields the member, and a
      number that names a member is that member's number. */
  lemma UnderlyingRoundTrip(outcome: VerificationOutcome, v: int)
    ensures FromUnderlying(Underlying(outcome)) == Some(outcome)
    ensures FromUnderlying(v).Some? ==> Underlying(FromUnderlying(v).value) == v
  {
  }

  /** The value of a freshly initialised outcome field (C#'s `default`),
      which is the member whose underlying value is zero. */
  function Default(): (outcome: VerificationOutcome)
    ensures Underlying(outcome) == 0
    ensures outcome != Success
  {
    Failure
  }

  /** The enum has exactly two members, and they differ. */
  lemma ExactlyTwoMembers(outcome: VerificationOutcome)
    ensures outcome == Failure || outcome == Success
    ensures Failure != Success
    ensures Underlying(Failure) != Underlying(Success)
  {
  }
}
