/**
 * Passcode generation: a one-time passcode is four characters, each chosen
 * from the decimal digits by the random source.
 *
 * The random source itself is not modelled: `GenerateOtp` receives the
 * indices into the digit alphabet that the source drew, and the lemmas
 * below show that the draws and the codes correspond one to one, so that
 * uniformly random draws give a uniformly random code.
 */
module OtpCode {

  /** Number of characters in a passcode (the `k` handed to the random source). */
  const OtpLength: nat := 4

  /** The alphabet codes are drawn from: the decimal digits, in order. */
  const Digits: string := "0123456789"

  predicate IsDigit(c: char) {
    '0' <= c <= '9'
  }

  /** The shape of every passcode: exactly `OtpLength` decimal digits. */
  predicate IsCode(s: string) {
    |s| == OtpLength && forall i :: 0 <= i < |s| ==> IsDigit(s[i])
  }

  /** What one call of the random source can yield: `OtpLength` indices into `Digits`. */
  predicate IsDraw(draws: seq<nat>) {
    |draws| == OtpLength && forall i :: 0 <= i < |draws| ==> draws[i] < |Digits|
  }

  /**
   * The characters of `population` picked out by `picks`, joined into one
   * string: random choices with replacement followed by a join.
   */
  function Choices(population: string, picks: seq<nat>): (s: string)
    requires forall i :: 0 <= i < |picks| ==> picks[i] < |population|
    ensures |s| == |picks|
    ensures forall i :: 0 <= i < |s| ==> s[i] == population[picks[i]]
  {
    if picks == [] then "" else [population[picks[0]]] + Choices(population, picks[1..])
  }

  /** A fresh passcode, given what the random source drew. */
  function GenerateOtp(draws: seq<nat>): (otp: string)
    requires IsDraw(draws)
    ensures IsCode(otp)
  {
    var s := Choices(Digits, draws);
    assert forall i :: 0 <= i < |s| ==> s[i] in Digits;
    s
  }

  /** The draws that produce a given code: the value of each digit. */
  function DrawsOf(code: string): (draws: seq<nat>)
    requires IsCode(code)
    ensures IsDraw(draws)
  {
    seq(|code|, i requires 0 <= i < |code| => (code[i] as int - '0' as int) as nat)
  }

  /** Every passcode can come out of the generator: `DrawsOf` is a right inverse. */
  lemma GenerateOnto(code: string)
    requires IsCode(code)
    ensures GenerateOtp(DrawsOf(code)) == code
  {
  }

  /** Distinct draws give distinct passcodes, so each code has exactly one draw. */
  lemma GenerateInjective(d1: seq<nat>, d2: seq<nat>)
    requires IsDraw(d1) && IsDraw(d2)
    requires GenerateOtp(d1) == GenerateOtp(d2)
    ensures d1 == d2
  {
  }
}
