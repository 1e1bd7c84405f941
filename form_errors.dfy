/**
 * The error dictionaries of the form pages: how a field's error is cleared
 * while the user types, and how a failed request is turned into errors.
 * The create, edit and sign-up pages share these steps.
 */
module FormErrors {
  import opened Options

  const General := "general"

  /** One element of the `errors` array in a failed response body. */
  datatype ApiError = ApiError(param: Option<string>, msg: string)

  /** What a failed request exposes: the response status, the `errors`
      array and the `message` of the body, each absent when the request got
      no response or the body has no such member. */
  datatype ApiFailure = ApiFailure(status: Option<int>, errors: Option<seq<ApiError>>,
                                   message: Option<string>)

  /** `err.param || 'general'`: a missing or empty `param` files the error
      under `general`. */
  function ErrorKey(e: ApiError): (k: string)
    ensures k != ""
    ensures e.param.Some? && e.param.value != "" ==> k == e.param.value
    ensures e.param.None? || e.param.value == "" ==> k == General
  {
    if e.param.Some? && e.param.value != "" then e.param.value else General
  }

  /** The dictionary the `forEach` over the errors array builds. */
  function ErrorsMap(errs: seq<ApiError>): map<string, string>
  {
    if errs == [] then map[]
    else
      var last := errs[|errs| - 1];
      ErrorsMap(errs[..|errs| - 1])[ErrorKey(last) := last.msg]
  }

  /** The loop over the errors array: each message is filed under its key,
      a later one replacing an earlier one. */
  method ServerErrorsToMap(errs: seq<ApiError>) returns (m: map<string, string>)
    ensures m == ErrorsMap(errs)
  {
    m := map[];
    var i := 0;
    while i < |errs|
      invariant 0 <= i <= |errs|
      invariant m == ErrorsMap(errs[..i])
    {
      assert errs[..i + 1][..i] == errs[..i];
      m := m[ErrorKey(errs[i]) := errs[i].msg];
      i := i + 1;
    }
    assert errs[..|errs|] == errs;
  }

  /** No error after position `i` is filed under the same key. */
  predicate LastWithKey(errs: seq<ApiError>, i: int)
    requires 0 <= i < |errs|
  {
    forall j :: i < j < |errs| ==> ErrorKey(errs[j]) != ErrorKey(errs[i])
  }

  /** The dictionary has a key exactly when some error is filed under it. */
  lemma {:induction false} ErrorsMapKeys(errs: seq<ApiError>)
    ensures forall k :: k in ErrorsMap(errs) <==> exists i :: 0 <= i < |errs| && ErrorKey(errs[i]) == k
  {
    if errs != [] {
      var n := |errs| - 1;
      var init := errs[..n];
      ErrorsMapKeys(init);
      assert ErrorsMap(errs) == ErrorsMap(init)[ErrorKey(errs[n]) := errs[n].msg];
      forall k | k in ErrorsMap(errs) ensures exists i :: 0 <= i < |errs| && ErrorKey(errs[i]) == k {
        if k != ErrorKey(errs[n]) {
          assert k in ErrorsMap(init);
          var i :| 0 <= i < |init| && ErrorKey(init[i]) == k;
          assert errs[i] == init[i];
        }
      }
      forall k | exists i :: 0 <= i < |errs| && ErrorKey(errs[i]) == k ensures k in ErrorsMap(errs) {
        var i :| 0 <= i < |errs| && ErrorKey(errs[i]) == k;
        if i < n { assert init[i] == errs[i]; }
      }
    }
  }

  /** Under each key the dictionary holds the message of the last error filed
      under it: a later error overwrites an earlier one. */
  lemma {:induction false} ErrorsMapLastWins(errs: seq<ApiError>)
    ensures forall i :: 0 <= i < |errs| && LastWithKey(errs, i) ==>
      ErrorKey(errs[i]) in ErrorsMap(errs) && ErrorsMap(errs)[ErrorKey(errs[i])] == errs[i].msg
  {
    if errs != [] {
      var n := |errs| - 1;
      var init := errs[..n];
      ErrorsMapLastWins(init);
      assert ErrorsMap(errs) == ErrorsMap(init)[ErrorKey(errs[n]) := errs[n].msg];
      forall i | 0 <= i < |errs| && LastWithKey(errs, i)
        ensures ErrorKey(errs[i]) in ErrorsMap(errs) && ErrorsMap(errs)[ErrorKey(errs[i])] == errs[i].msg
      {
        if i < n {
          assert ErrorKey(errs[n]) != ErrorKey(errs[i]);
          assert init[i] == errs[i];
          assert LastWithKey(init, i) by {
            forall j | i < j < |init| ensures ErrorKey(init[j]) != ErrorKey(init[i]) {
              assert init[j] == errs[j];
            }
          }
        }
      }
    }
  }

  /** The server's message when the body carries a non-empty one; an absent
      or empty message is falsy and gives way to the fallback. */
  function MessageOr(failure: ApiFailure, fallback: string): (s: string)
    ensures fallback != "" ==> s != ""
    ensures failure.message.Some? && failure.message.value != "" ==> s == failure.message.value
    ensures failure.message.None? || failure.message == Some("") ==> s == fallback
  {
    if failure.message.Some? && failure.message.value != "" then failure.message.value else fallback
  }

  /** The errors a page shows after a failed submit: the server's errors
      array when the body has one, otherwise a `general` message. */
  function FailureErrors(failure: ApiFailure, fallback: string): (m: map<string, string>)
    ensures failure.errors.None? ==> m == map[General := MessageOr(failure, fallback)]
    ensures failure.errors.Some? ==> m.Keys == set e | e in failure.errors.value :: ErrorKey(e)
  {
    if failure.errors.Some? then
      ErrorsMapKeys(failure.errors.value);
      ErrorsMap(failure.errors.value)
    else map[General := MessageOr(failure, fallback)]
  }

  /** `if (errors[name]) setErrors({ ...errors, [name]: '' })`: typing into a
      field blanks that field's error when it shows one. */
  function ClearedOnEdit(errors: map<string, string>, name: string): (e: map<string, string>)
    ensures e.Keys == errors.Keys
    ensures forall k :: k in errors && k != name ==> e[k] == errors[k]
    ensures name in errors ==> e[name] == ""
  {
    if name in errors && errors[name] != "" then errors[name := ""] else errors
  }
}
