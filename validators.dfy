/**
 * InputValidator: ordered checks on form input. Each validator returns
 * (True, None) when every check passes, and otherwise (False, message) with
 * the message of the first check that fails.
 */
module Validators {
  import opened Wrappers
  import opened Text
  import opened Rating

  /** A validator's answer: whether the input is acceptable, and the message when it is not. */
  datatype Validation = Validation(ok: bool, message: Option<string>)

  /** One check of a validator, in the order the validator makes them. */
  datatype Check = Check(passes: bool, message: string)

  /** The message of the first failing check, None when all pass. */
  function FirstFailure(checks: seq<Check>): (m: Option<string>)
    ensures m.None? <==> forall k :: 0 <= k < |checks| ==> checks[k].passes
    ensures m.Some? ==> exists k :: 0 <= k < |checks| && !checks[k].passes && checks[k].message == m.value
                                    && forall j :: 0 <= j < k ==> checks[j].passes
  {
    if checks == [] then None
    else if !checks[0].passes then Some(checks[0].message)
    else
      var rest := FirstFailure(checks[1..]);
      if rest.None? then None
      else
        var k :| 0 <= k < |checks[1..]| && !checks[1..][k].passes && checks[1..][k].message == rest.value
                 && forall j :: 0 <= j < k ==> checks[1..][j].passes;
        assert forall j :: 0 <= j < k + 1 ==> checks[j].passes by {
          forall j | 0 <= j < k + 1 ensures checks[j].passes {
            if j > 0 {
              assert checks[j] == checks[1..][j - 1];
            }
          }
        }
        assert !checks[k + 1].passes && checks[k + 1].message == rest.value;
        rest
  }

  /** The first failure of a non-empty list: its head when that fails, else the first failure of the rest. */
  lemma FirstFailureCons(c: Check, rest: seq<Check>)
    ensures FirstFailure([c] + rest) == if c.passes then FirstFailure(rest) else Some(c.message)
  {
    assert ([c] + rest)[1..] == rest;
  }

  /** The validator answer a first failure stands for. */
  function Outcome(m: Option<string>): Validation {
    Validation(m.None?, m)
  }

  /** `validate_registration` */
  function ValidateRegistration(username: string, email: string, password: string): (v: Validation)
    ensures v.ok <==> !IsBlank(username) && '@' in email && password != []
    ensures v.ok <==> v.message.None?
  {
    if username == [] || |Strip(username)| < 1 then Validation(false, Some("Username cannot be empty"))
    else if email == [] || '@' !in email then Validation(false, Some("Invalid email format"))
    else if password == [] || |password| < 1 then Validation(false, Some("Password cannot be empty"))
    else Validation(true, None)
  }

  /** The checks of `validate_registration`, in order. */
  function RegistrationChecks(username: string, email: string, password: string): seq<Check> {
    [ Check(!IsBlank(username), "Username cannot be empty"),
      Check('@' in email, "Invalid email format"),
      Check(password != [], "Password cannot be empty") ]
  }

  /** `validate_registration` reports the first failing check of its list. */
  lemma RegistrationIsFirstFailure(username: string, email: string, password: string)
    ensures ValidateRegistration(username, email, password) == Outcome(FirstFailure(RegistrationChecks(username, email, password)))
  {
    var cs := RegistrationChecks(username, email, password);
    assert cs == [cs[0]] + ([cs[1]] + [cs[2]]);
    FirstFailureCons(cs[2], []);
    assert [cs[2]] + [] == [cs[2]];
    FirstFailureCons(cs[1], [cs[2]]);
    FirstFailureCons(cs[0], [cs[1]] + [cs[2]]);
  }

  /** `validate_signin` */
  function ValidateSignin(usernameOrEmail: string, password: string): (v: Validation)
    ensures v.ok <==> !IsBlank(usernameOrEmail) && password != []
    ensures v.ok <==> v.message.None?
  {
    if usernameOrEmail == [] || |Strip(usernameOrEmail)| < 1 then Validation(false, Some("Username/Email cannot be empty"))
    else if password == [] || |password| < 1 then Validation(false, Some("Password cannot be empty"))
    else Validation(true, None)
  }

  /** The checks of `validate_signin`, in order. */
  function SigninChecks(usernameOrEmail: string, password: string): seq<Check> {
    [ Check(!IsBlank(usernameOrEmail), "Username/Email cannot be empty"),
      Check(password != [], "Password cannot be empty") ]
  }

  lemma SigninIsFirstFailure(usernameOrEmail: string, password: string)
    ensures ValidateSignin(usernameOrEmail, password) == Outcome(FirstFailure(SigninChecks(usernameOrEmail, password)))
  {
    var c0 := Check(!IsBlank(usernameOrEmail), "Username/Email cannot be empty");
    var c1 := Check(password != [], "Password cannot be empty");
    assert SigninChecks(usernameOrEmail, password) == [c0] + [c1];
    FirstFailureCons(c1, []);
    assert [c1] + [] == [c1];
    FirstFailureCons(c0, [c1]);
    if IsBlank(usernameOrEmail) {
      assert ValidateSignin(usernameOrEmail, password) == Validation(false, Some(c0.message));
    } else if password == [] {
      assert ValidateSignin(usernameOrEmail, password) == Validation(false, Some(c1.message));
    }
  }

  /**
   * `validate_review`. A rating that does not parse has its own message; `nan`
   * and the infinities parse and then fail the range check.
   */
  function ValidateReview(rating: FloatInput, title: string, text: string): (v: Validation)
    ensures v.ok <==> InRange(rating) && !IsBlank(title) && !IsBlank(text)
    ensures v.ok <==> v.message.None?
    ensures rating.Unparsable? ==> v.message == Some("Invalid rating value")
  {
    if rating.Unparsable? then Validation(false, Some("Invalid rating value"))
    else if !(rating.Finite? && 1.0 <= rating.value && rating.value <= 5.0) then Validation(false, Some("Rating must be between 1 and 5"))
    else if title == [] || |Strip(title)| < 1 then Validation(false, Some("Review title cannot be empty"))
    else if text == [] || |Strip(text)| < 1 then Validation(false, Some("Review text cannot be empty"))
    else Validation(true, None)
  }

  /** The checks of `validate_review`, in order. */
  function ReviewChecks(rating: FloatInput, title: string, text: string): seq<Check> {
    [ Check(!rating.Unparsable?, "Invalid rating value"),
      Check(InRange(rating), "Rating must be between 1 and 5"),
      Check(!IsBlank(title), "Review title cannot be empty"),
      Check(!IsBlank(text), "Review text cannot be empty") ]
  }

  lemma ReviewIsFirstFailure(rating: FloatInput, title: string, text: string)
    ensures ValidateReview(rating, title, text) == Outcome(FirstFailure(ReviewChecks(rating, title, text)))
  {
    var cs := ReviewChecks(rating, title, text);
    assert cs == [cs[0]] + ([cs[1]] + ([cs[2]] + [cs[3]]));
    FirstFailureCons(cs[3], []);
    assert [cs[3]] + [] == [cs[3]];
    FirstFailureCons(cs[2], [cs[3]]);
    FirstFailureCons(cs[1], [cs[2]] + [cs[3]]);
    FirstFailureCons(cs[0], [cs[1]] + ([cs[2]] + [cs[3]]));
  }

  /**
   * The password is not stripped: one made only of spaces is accepted, while
   * a username made only of spaces is not.
   */
  lemma WhitespaceFields()
    ensures ValidateRegistration("ann", "a@b", "   ") == Validation(true, None)
    ensures ValidateRegistration("   ", "a@b", "secret") == Validation(false, Some("Username cannot be empty"))
    ensures ValidateSignin(" \t", "secret") == Validation(false, Some("Username/Email cannot be empty"))
  {
    assert !IsSpace("ann"[0]);
    BlankIffAllSpace("ann");
    BlankIffAllSpace("   ");
    BlankIffAllSpace(" \t");
    assert "a@b"[1] == '@';
  }

  /** `nan` and the infinities get the range message, not the parse message. */
  lemma NonFiniteRatingMessage(title: string, text: string)
    ensures ValidateReview(NonFinite, title, text) == Validation(false, Some("Rating must be between 1 and 5"))
  {
  }
}
