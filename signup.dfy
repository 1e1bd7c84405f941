/**
 * The sign-up page: four fields, the checks it runs before calling the
 * account service, and the errors it shows when that call fails.
 */
module SignupPage {
  import opened JsText
  import opened Options
  import opened FormErrors

  const NameRequired := "Name is required"
  const EmailRequired := "Email is required"
  const EmailInvalid := "Email is invalid"
  const PasswordRequired := "Password is required"
  const PasswordTooShort := "Password must be at least 6 characters"
  const PasswordsDiffer := "Passwords do not match"
  const SignupFallback := "Signup failed. Please try again."
  const MinPassword: nat := 6

  datatype SignupField = Name | Email | Password | ConfirmPassword
  {
    function Key(): string
    {
      match this
      case Name => "name"
      case Email => "email"
      case Password => "password"
      case ConfirmPassword => "confirmPassword"
    }
  }

  /** What the page hands to the account service: the name, e-mail and
      password exactly as typed, without trimming. */
  datatype SignupRequest = SignupRequest(name: string, email: string, password: string)

  /** No white space in `s[lo..hi]`. */
  predicate NoWhiteSpaceIn(s: string, lo: int, hi: int)
    requires 0 <= lo <= hi <= |s|
  {
    forall i :: lo <= i < hi ==> !IsWhiteSpace(s[i])
  }

  /** The unanchored test `/\S+@\S+\.\S+/`: somewhere in `s` an `@` at `a`
      and a `.` at `d` with at least one non-white character before the
      `@`, between the two, and after the `.`. The shortest match is
      `s[a - 1..d + 2]`, so the test holds exactly when that stretch has no
      white space. */
  predicate MatchesEmailPattern(s: string)
  {
    exists a, d :: 0 < a < |s| && a + 1 < d < |s| - 1 && s[a] == '@' && s[d] == '.'
      && NoWhiteSpaceIn(s, a - 1, d + 2)
  }

  predicate SignupAccepts(name: string, email: string, password: string, confirm: string)
  {
    Trim(name) != [] && Trim(email) != [] && MatchesEmailPattern(email)
    && |password| >= MinPassword && password == confirm
  }

  /** The errors `validateForm` reports, one per field at most: the name
      and e-mail are required after trimming; the e-mail pattern is matched against
      the untrimmed value; the password is checked untrimmed and must
      equal its confirmation. */
  function SignupErrors(name: string, email: string, password: string, confirm: string)
    : (errors: map<string, string>)
    ensures errors == map[] <==> SignupAccepts(name, email, password, confirm)
    ensures errors.Keys <= {"name", "email", "password", "confirmPassword"}
    ensures "name" in errors <==> Trim(name) == []
    ensures "name" in errors ==> errors["name"] == NameRequired
    ensures "email" in errors <==> Trim(email) == [] || !MatchesEmailPattern(email)
    ensures "email" in errors ==>
      errors["email"] == (if Trim(email) == [] then EmailRequired else EmailInvalid)
    ensures "password" in errors <==> |password| < MinPassword
    ensures "password" in errors ==>
      errors["password"] == (if password == [] then PasswordRequired else PasswordTooShort)
    ensures "confirmPassword" in errors <==> password != confirm
    ensures "confirmPassword" in errors ==> errors["confirmPassword"] == PasswordsDiffer
  {
    var m1: map<string, string> := if Trim(name) == [] then map["name" := NameRequired] else map[];
    var m2 :=
      if Trim(email) == [] then m1["email" := EmailRequired]
      else if !MatchesEmailPattern(email) then m1["email" := EmailInvalid]
      else m1;
    var m3 :=
      if password == [] then m2["password" := PasswordRequired]
      else if |password| < MinPassword then m2["password" := PasswordTooShort]
      else m2;
    var m4 := if password != confirm then m3["confirmPassword" := PasswordsDiffer] else m3;
    assert Trim(name) == [] ==> "name" in m4;
    assert Trim(email) == [] || !MatchesEmailPattern(email) ==> "email" in m4;
    assert |password| < MinPassword ==> "password" in m4;
    assert password != confirm ==> "confirmPassword" in m4;
    m4
  }

  /** `validateForm`: fills `newErrors` field by field. */
  method ValidateForm(name: string, email: string, password: string, confirm: string)
    returns (newErrors: map<string, string>)
    ensures newErrors == SignupErrors(name, email, password, confirm)
  {
    newErrors := map[];
    if Trim(name) == [] {
      newErrors := newErrors["name" := NameRequired];
    }
    if Trim(email) == [] {
      newErrors := newErrors["email" := EmailRequired];
    } else if !MatchesEmailPattern(email) {
      newErrors := newErrors["email" := EmailInvalid];
    }
    if password == [] {
      newErrors := newErrors["password" := PasswordRequired];
    } else if |password| < MinPassword {
      newErrors := newErrors["password" := PasswordTooShort];
    }
    if password != confirm {
      newErrors := newErrors["confirmPassword" := PasswordsDiffer];
    }
  }

  /** An address made of three non-empty runs without white space, joined by
      `@` and `.`, passes the test. */
  lemma EmailShapeAccepted(local: string, host: string, tld: string)
    requires local != [] && host != [] && tld != []
    requires NoWhiteSpaceIn(local, 0, |local|) && NoWhiteSpaceIn(host, 0, |host|)
    requires NoWhiteSpaceIn(tld, 0, |tld|)
    ensures MatchesEmailPattern(local + "@" + host + "." + tld)
  {
    var s := local + "@" + host + "." + tld;
    var a := |local|;
    var d := |local| + 1 + |host|;
    assert s[a] == '@' && s[d] == '.';
    forall i | a - 1 <= i < d + 2 ensures !IsWhiteSpace(s[i]) {
      if i < a {
        assert s[i] == local[i];
      } else if a < i < d {
        assert s[i] == host[i - a - 1];
      } else if i == d + 1 {
        assert s[i] == tld[0];
      }
    }
    assert NoWhiteSpaceIn(s, a - 1, d + 2);
  }

  /** Without an `@` there is no match. */
  lemma NoAtRejected(s: string)
    requires forall i :: 0 <= i < |s| ==> s[i] != '@'
    ensures !MatchesEmailPattern(s)
  {
  }

  /** The test is not anchored: text around a matching value, white space
      included, keeps it matching. */
  lemma EmailPatternUnanchored(s: string, before: string, after: string)
    requires MatchesEmailPattern(s)
    ensures MatchesEmailPattern(before + s + after)
  {
    var a, d :| 0 < a < |s| && a + 1 < d < |s| - 1 && s[a] == '@' && s[d] == '.'
      && NoWhiteSpaceIn(s, a - 1, d + 2);
    var t := before + s + after;
    var k := |before|;
    assert t[k + a] == '@' && t[k + d] == '.';
    forall i | k + a - 1 <= i < k + d + 2 ensures !IsWhiteSpace(t[i]) {
      assert t[i] == s[i - k];
    }
    assert NoWhiteSpaceIn(t, k + a - 1, k + d + 2);
  }

  /** So a form that passes validation still passes with spaces typed
      around its e-mail, and the padded e-mail is what is sent. */
  lemma PaddedEmailAccepted(name: string, email: string, password: string, confirm: string)
    requires SignupAccepts(name, email, password, confirm)
    ensures SignupAccepts(name, " " + email + " ", password, confirm)
  {
    var padded := " " + email + " ";
    EmailPatternUnanchored(email, " ", " ");
    TrimEmptyIff(email);
    TrimEmptyIff(padded);
    var i :| 0 <= i < |email| && !IsWhiteSpace(email[i]);
    assert padded[i + 1] == email[i];
  }

  class Signup {
    var name: string
    var email: string
    var password: string
    var confirmPassword: string
    var errors: map<string, string>

    constructor()
      ensures name == "" && email == "" && password == "" && confirmPassword == ""
      ensures errors == map[]
    {
      name := "";
      email := "";
      password := "";
      confirmPassword := "";
      errors := map[];
    }

    /** Typing into one field: that field takes the value, its shown error
        is blanked, the other fields keep theirs. */
    method HandleChange(field: SignupField, value: string)
      modifies this
      ensures name == (if field == Name then value else old(name))
      ensures email == (if field == Email then value else old(email))
      ensures password == (if field == Password then value else old(password))
      ensures confirmPassword == (if field == ConfirmPassword then value else old(confirmPassword))
      ensures errors == ClearedOnEdit(old(errors), field.Key())
    {
      match field {
        case Name => name := value;
        case Email => email := value;
        case Password => password := value;
        case ConfirmPassword => confirmPassword := value;
      }
      var key := field.Key();
      if key in errors && errors[key] != "" {
        errors := errors[key := ""];
      }
    }

    /** Submitting: on validation errors nothing is sent and they are shown;
        otherwise the errors are cleared and the name, e-mail and password
        are sent as typed (the confirmation is not sent). */
    method HandleSubmit() returns (request: Option<SignupRequest>)
      modifies this
      ensures name == old(name) && email == old(email)
      ensures password == old(password) && confirmPassword == old(confirmPassword)
      ensures !SignupAccepts(name, email, password, confirmPassword) ==>
        request == None && errors == SignupErrors(name, email, password, confirmPassword)
      ensures SignupAccepts(name, email, password, confirmPassword) ==>
        request == Some(SignupRequest(name, email, password)) && errors == map[]
    {
      var validationErrors := ValidateForm(name, email, password, confirmPassword);
      if |validationErrors| > 0 {
        errors := validationErrors;
        return None;
      }
      errors := map[];
      request := Some(SignupRequest(name, email, password));
    }

    /** A failed sign-up call. */
    method OnSignupFailed(failure: ApiFailure)
      modifies this
      ensures errors == FailureErrors(failure, SignupFallback)
      ensures name == old(name) && email == old(email)
      ensures password == old(password) && confirmPassword == old(confirmPassword)
    {
      if failure.errors.Some? {
        errors := ServerErrorsToMap(failure.errors.value);
      } else {
        errors := map[General := MessageOr(failure, SignupFallback)];
      }
    }
  }
}
