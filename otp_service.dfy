/**
 * The passcode service: registering a mobile number issues a fresh code
 * and stores it as the number's only code; verifying accepts a presented
 * code exactly when it is the one on record. Each call is one atomic step
 * on the `users` table.
 */
module OtpService {
  import opened OtpCode
  import opened UsersTable

  /** Detail of the client-error response to a missing or wrong code. */
  const InvalidOtp: string := "Invalid OTP"

  const IssuedPrefix: string := "OTP "
  const IssuedInfix: string := " generated and registered for "

  /** Outcome of a verification: success, or the client error with its detail. */
  datatype Verdict = Accepted | Rejected(detail: string)

  /** The message that reports a freshly issued code for a number. */
  function IssuedMessage(otp: string, mobile: string): (msg: string)
    ensures |msg| == |IssuedPrefix| + |otp| + |IssuedInfix| + |mobile|
    ensures msg[|IssuedPrefix|..|IssuedPrefix| + |otp|] == otp
    ensures msg[|msg| - |mobile|..] == mobile
  {
    var msg := IssuedPrefix + otp + IssuedInfix + mobile;
    assert msg[|IssuedPrefix|..|IssuedPrefix| + |otp|] == otp;
    msg
  }

  class Service {
    /** The `users` table, in row order. */
    var users: seq<Row>

    /** Each number has at most one row, and every stored code has the passcode shape. */
    ghost predicate Valid()
      reads this
    {
      && DistinctNumbers(users)
      && forall i :: 0 <= i < |users| ==> IsCode(users[i].otp)
    }

    constructor ()
      ensures Valid() && users == []
    {
      users := [];
    }

    /**
     * Accepts exactly when the number has a code on record and the presented
     * string equals it; never changes the table.
     */
    function Verify(mobile: string, otp: string): (v: Verdict)
      reads this
      ensures v == Accepted <==> mobile in Codes(users) && Codes(users)[mobile] == otp
      ensures v != Accepted ==> v == Rejected(InvalidOtp)
      ensures Valid() ==> (v == Accepted <==> Row(mobile, otp) in users)
    {
      SelectFindsCode(users, mobile);
      assert Valid() ==> (Row(mobile, otp) in users <==> mobile in Codes(users) && Codes(users)[mobile] == otp) by {
        if Valid() {
          CodesAreRows(users, mobile, otp);
        }
      }
      var fetched := Select(users, mobile);
      if fetched.Some? && fetched.value == otp then Accepted else Rejected(InvalidOtp)
    }

    /**
     * Issues the code given by `draws` for `mobile`, overwriting the number's
     * row if it has one and inserting a row otherwise.
     */
    method Register(mobile: string, draws: seq<nat>) returns (message: string)
      requires Valid()
      requires IsDraw(draws)
      modifies this
      ensures Valid()
      ensures message == IssuedMessage(GenerateOtp(draws), mobile)
      ensures Codes(users) == old(Codes(users))[mobile := GenerateOtp(draws)]
      ensures |users| == |old(users)| + if mobile in old(Codes(users)) then 0 else 1
      ensures forall p :: Verify(mobile, p) == Accepted <==> p == GenerateOtp(draws)
      ensures forall n, p :: n != mobile ==> Verify(n, p) == old(Verify(n, p))
    {
      var otp := GenerateOtp(draws);
      var existing := Select(users, mobile);
      SelectFindsCode(users, mobile);
      if existing.Some? {
        UpdateReplacesCode(users, mobile, otp);
        UpdateKeepsDistinct(users, mobile, otp);
        users := Update(users, mobile, otp);
      } else {
        InsertAddsCode(users, mobile, otp);
        InsertKeepsDistinct(users, mobile, otp);
        users := Insert(users, mobile, otp);
      }
      message := IssuedMessage(otp, mobile);
    }
  }
}
