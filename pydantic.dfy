/**
 * The schema-backed validator of starlette_fancy/validators/pydantic.py.
 *
 * The schema library's own validation (`validate_model`) is not modelled: it is
 * a function parameter that, given a schema and the input, reports a sequence
 * of raw errors, each tagged as a missing-field error or another kind.
 */
module PydanticValidation {
  import opened Wrappers

  /** A schema class; only its identity matters here. */
  datatype Model = Model(name: string)

  /** Whether a raw error is a `MissingError` or any other violation. */
  datatype ErrorKind = Missing | Other

  /** One raw error: the location it reports and its kind. */
  datatype RawError = RawError(loc: seq<string>, kind: ErrorKind)

  /** `ValidationError(errors=..., model=...)` */
  datatype ValidationError = ValidationError(errors: seq<RawError>, model: Model)

  /** Which part of the request the data came from. */
  datatype Source = Body | QueryParams | PathParams

  /** The errors that are not missing-field errors, in their original order. */
  function NonMissing(errs: seq<RawError>): (r: seq<RawError>)
    ensures |r| <= |errs|
    ensures forall i :: 0 <= i < |r| ==> r[i].kind == Other
    decreases |errs|
  {
    if errs == [] then []
    else
      var e := errs[|errs| - 1];
      NonMissing(errs[..|errs| - 1]) + (if e.kind == Missing then [] else [e])
  }

  /**
   * What `validate_input_and_raise` does with the errors a validation reported:
   * nothing when there are none; otherwise, outside partial mode, raise them all;
   * in partial mode, raise the non-missing ones if any remain.
   */
  function ValidationOutcome(errs: seq<RawError>, model: Model, partial: bool): Outcome<ValidationError>
  {
    if errs == [] then Pass
    else if !partial then Fail(ValidationError(errs, model))
    else if NonMissing(errs) == [] then Pass
    else Fail(ValidationError(NonMissing(errs), model))
  }

  /**
   * `validate_input_and_raise`: run the schema's validation, then in partial
   * mode filter the raw errors with a loop that skips missing-field errors.
   * As in the source, `partial` defaults to false. The validation itself comes
   * first because Dafny puts parameters with defaults last.
   */
  method ValidateInputAndRaise<D>(validate: (Model, D) -> seq<RawError>, model: Model, inputData: D, partial: bool := false)
    returns (out: Outcome<ValidationError>)
    ensures out == ValidationOutcome(validate(model, inputData), model, partial)
  {
    var raw := validate(model, inputData);
    if raw == [] {
      return Pass;
    }
    if !partial {
      return Fail(ValidationError(raw, model));
    }
    var errors: seq<RawError> := [];
    var i := 0;
    while i < |raw|
      invariant 0 <= i <= |raw|
      invariant errors == NonMissing(raw[..i])
    {
      assert raw[..i + 1][..i] == raw[..i];
      if raw[i].kind == Missing {
        i := i + 1;
        continue;
      }
      errors := errors + [raw[i]];
      i := i + 1;
    }
    assert raw[..i] == raw;
    if errors != [] {
      return Fail(ValidationError(errors, model));
    }
    return Pass;
  }

  /** Filtering keeps every other-kind error as often as it occurs and drops every missing one. */
  lemma {:induction false} NonMissingCount(errs: seq<RawError>, x: RawError)
    ensures multiset(NonMissing(errs))[x] == if x.kind == Missing then 0 else multiset(errs)[x]
    decreases |errs|
  {
    if errs != [] {
      var front, e := errs[..|errs| - 1], errs[|errs| - 1];
      NonMissingCount(front, x);
      assert errs == front + [e];
    }
  }

  /** Filtering distributes over concatenation, so the relative order of the kept errors is the input's. */
  lemma {:induction false} NonMissingAppend(a: seq<RawError>, b: seq<RawError>)
    ensures NonMissing(a + b) == NonMissing(a) + NonMissing(b)
    decreases |b|
  {
    if b == [] {
      assert a + b == a;
    } else {
      var front, e := b[..|b| - 1], b[|b| - 1];
      NonMissingAppend(a, front);
      assert (a + b)[..|a + b| - 1] == a + front;
      assert (a + b)[|a + b| - 1] == e;
    }
  }

  /** Nothing is left after filtering exactly when every error is a missing-field error. */
  lemma {:induction false} NonMissingEmptyIff(errs: seq<RawError>)
    ensures NonMissing(errs) == [] <==> forall i :: 0 <= i < |errs| ==> errs[i].kind == Missing
    decreases |errs|
  {
    if errs != [] {
      var front := errs[..|errs| - 1];
      NonMissingEmptyIff(front);
      forall i | 0 <= i < |front| ensures front[i] == errs[i] { }
    }
  }

  /** With no missing-field error to drop, filtering changes nothing. */
  lemma {:induction false} NonMissingKeepsOthers(errs: seq<RawError>)
    requires forall i :: 0 <= i < |errs| ==> errs[i].kind == Other
    ensures NonMissing(errs) == errs
    decreases |errs|
  {
    if errs != [] {
      var front := errs[..|errs| - 1];
      forall i | 0 <= i < |front| ensures front[i] == errs[i] { }
      NonMissingKeepsOthers(front);
      assert front + [errs[|errs| - 1]] == errs;
    }
  }

  /** With no reported errors the call returns normally in both modes. */
  lemma NoErrorsPasses(model: Model, partial: bool)
    ensures ValidationOutcome([], model, partial) == Pass
  {
  }

  /** Outside partial mode any reported error is raised as the original, unchanged error set. */
  lemma NonPartialRaisesAll(errs: seq<RawError>, model: Model)
    ensures ValidationOutcome(errs, model, false).Fail? <==> errs != []
    ensures errs != [] ==> ValidationOutcome(errs, model, false).error == ValidationError(errs, model)
  {
  }

  /**
   * In partial mode the call raises exactly when some error is not a missing-field
   * error, and then carries exactly the non-missing errors in their original order.
   */
  lemma PartialRaisesOnlyOthers(errs: seq<RawError>, model: Model)
    ensures ValidationOutcome(errs, model, true).Fail? <==> exists i :: 0 <= i < |errs| && errs[i].kind == Other
    ensures ValidationOutcome(errs, model, true).Fail? ==>
              ValidationOutcome(errs, model, true).error == ValidationError(NonMissing(errs), model)
  {
    NonMissingEmptyIff(errs);
  }

  /** Partial mode is never stricter: whatever it raises, full mode raises too, with a superset. */
  lemma PartialNoStricter(errs: seq<RawError>, model: Model, x: RawError)
    requires ValidationOutcome(errs, model, true).Fail?
    ensures ValidationOutcome(errs, model, false).Fail?
    ensures multiset(ValidationOutcome(errs, model, true).error.errors)[x]
              <= multiset(ValidationOutcome(errs, model, false).error.errors)[x]
  {
    NonMissingCount(errs, x);
  }

  /** In partial mode a missing-field error anywhere in the report makes no difference. */
  lemma PartialIgnoresMissing(a: seq<RawError>, m: RawError, b: seq<RawError>, model: Model)
    requires m.kind == Missing
    ensures ValidationOutcome(a + [m] + b, model, true) == ValidationOutcome(a + b, model, true)
  {
    NonMissingAppend(a + [m], b);
    NonMissingAppend(a, [m]);
    NonMissingAppend(a, b);
    assert [m][..0] == [];
    assert NonMissing([m]) == [];
    assert NonMissing(a + [m] + b) == NonMissing(a + b);
    assert a + [m] + b != [];
    if a + b == [] {
      assert NonMissing(a + b) == [];
    }
  }

  /**
   * `PydanticValidator`: the three optional schemas a subclass may declare.
   * An absent schema stands for the attribute the source probes with `hasattr`.
   */
  datatype PydanticValidator = PydanticValidator(
    paramsModel: Option<Model>,
    requestModel: Option<Model>,
    responseModel: Option<Model>)
  {
    /** The one schema, if any, that `__call__` validates against. */
    function SelectedModel(source: Source, response: bool): Option<Model>
    {
      if response then responseModel
      else
        match source
        case Body => requestModel
        case QueryParams => paramsModel
        case PathParams => None
    }

    /**
     * `__call__`: validate against the schema that `response` and `source` pick,
     * raising what validation raises, and otherwise hand back the data unchanged.
     * The defaults are the source's: body data, request mode, not partial.
     */
    method Call<D>(validate: (Model, D) -> seq<RawError>, data: D,
                   source: Source := Body, response: bool := false, partial: bool := false)
      returns (r: Result<D, ValidationError>)
      ensures r.Success? ==> r.value == data
      ensures SelectedModel(source, response).None? ==> r == Success(data)
      ensures SelectedModel(source, response).Some? ==>
                var m := SelectedModel(source, response).value;
                r.Failure? <==> ValidationOutcome(validate(m, data), m, partial).Fail?
      ensures r.Failure? ==>
                var m := SelectedModel(source, response).value;
                r.error == ValidationOutcome(validate(m, data), m, partial).error
    {
      if response {
        if responseModel.Some? {
          var out := ValidateInputAndRaise(validate, responseModel.value, data, partial);
          if out.Fail? {
            return Failure(out.error);
          }
        }
      } else {
        if requestModel.Some? && source == Body {
          var out := ValidateInputAndRaise(validate, requestModel.value, data, partial);
          if out.Fail? {
            return Failure(out.error);
          }
        }
        if paramsModel.Some? && source == QueryParams {
          var out := ValidateInputAndRaise(validate, paramsModel.value, data, partial);
          if out.Fail? {
            return Failure(out.error);
          }
        }
      }
      return Success(data);
    }
  }

  /** In response mode only the response schema matters; the request and query schemas are never used. */
  lemma ResponseUsesOnlyResponseModel(v: PydanticValidator, w: PydanticValidator, s: Source, t: Source)
    requires v.responseModel == w.responseModel
    ensures v.SelectedModel(s, true) == w.SelectedModel(t, true) == v.responseModel
  {
  }

  /**
   * For request data only the schema of the data's own source can apply: the
   * request schema for the body, the query schema for query parameters, and
   * none for path parameters.
   */
  lemma RequestUsesOnlyItsSourceModel(v: PydanticValidator, w: PydanticValidator, s: Source)
    requires s == Body ==> v.requestModel == w.requestModel
    requires s == QueryParams ==> v.paramsModel == w.paramsModel
    ensures v.SelectedModel(s, false) == w.SelectedModel(s, false)
    ensures s == PathParams ==> v.SelectedModel(s, false).None?
  {
  }
}
