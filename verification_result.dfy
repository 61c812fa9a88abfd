/** The result record of a verification (JGP.Security/VerificationResult.cs):
    an outcome together with an optional diagnostic message. */
module VerificationResults {

  import opened Wrappers
  import opened VerificationOutcomes

  /** `message` is None where the C# property holds null. */
  datatype VerificationResult = VerificationResult(message: Option<string>, outcome: VerificationOutcome)

  /** A failure that carries exactly the given message. */
  function GetFailureResult(message: string): (r: VerificationResult)
    ensures r.outcome == Failure
    ensures r.message == Some(message)
    ensures IsFactoryResult(r)
  {
    VerificationResult(Some(message), Failure)
  }

  /** A success, which carries no message. */
  function GetSuccessResult(): (r: VerificationResult)
    ensures r.outcome == Success
    ensures r.message.None?
    ensures IsFactoryResult(r)
  {
    VerificationResult(None, Success)
  }

  /** The shapes the two factories produce: a success without a message, or
      a failure with one. The constructor is private, so a result starts out
      in one of these shapes (the public setters can change it afterwards).
      The ensures only restates the definition; what matters are the
      factories' `ensures IsFactoryResult(r)` and FactoriesCoverFactoryResults. */
  predicate IsFactoryResult(r: VerificationResult): (b: bool)
    ensures b <==> (r.message.Some? <==> r.outcome == Failure)
  {
    match r.outcome
    case Success => r.message.None?
    case Failure => r.message.Some?
  }

  /** Every result of the factories' shape is the output of one of them. */
  lemma FactoriesCoverFactoryResults(r: VerificationResult)
    requires IsFactoryResult(r)
    ensures r.outcome == Success ==> r == GetSuccessResult()
    ensures r.outcome == Failure ==> r == GetFailureResult(r.message.value)
  {
  }

  /** The two factories never produce the same outcome, and the failure
      factory loses no information about its message. */
  lemma FactoriesDistinct(m: string, m': string)
    ensures GetFailureResult(m).outcome != GetSuccessResult().outcome
    ensures GetFailureResult(m) == GetFailureResult(m') <==> m == m'
  {
  }
}
