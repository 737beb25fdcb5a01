/** The validated outcome types of `ValidatedResult.cs`: `ValidatedResult`,
    `ValidatedResult<D>` and `ValidatedResult<D,F>`, which add a list of
    validation errors to the `Result` family, the `ValidatedIntention` the
    `ValidatedResults` factories build, and the conversions between them.

    As in `Results`, the three classes are one record, and `Level` is the
    static type that picks an overload. `ValidationErrors` is a `seq`: the
    constructors replace a null list by an empty one, so it is never null.
 */
module ValidatedResults {
  import opened Wrappers
  import opened Validation
  import opened Results

  /** A `ValidatedResult`, `ValidatedResult<D>` or `ValidatedResult<D,F>`. */
  datatype ValidatedResult<D, F> = ValidatedResult(
    success: bool,
    message: Option<string>,
    data: Option<D>,
    failData: Option<F>,
    validationErrors: seq<ValidationError>)

  /** A `ValidatedIntention`: a `ResultIntention` with a `Validation` list,
      which may be null. */
  datatype ValidatedIntention<D, F> = ValidatedIntention(
    intention: Intention<D, F>,
    validation: Option<seq<ValidationError>>)

  /** The constructors (of every level): a null error list becomes empty. */
  function New<D, F>(success: bool, message: Option<string>, data: Option<D>, failData: Option<F>, validationErrors: Option<seq<ValidationError>>): (r: ValidatedResult<D, F>)
    ensures r.success == success && r.message == message
    ensures r.data == data && r.failData == failData
    ensures validationErrors.None? ==> r.validationErrors == []
    ensures validationErrors.Some? ==> r.validationErrors == validationErrors.value
  {
    ValidatedResult(success, message, data, failData, validationErrors.GetOr([]))
  }

  /** `r` seen at static type `level`. */
  function Project<D, F>(r: ValidatedResult<D, F>, level: Level): ValidatedResult<D, F> {
    r.(data := if level == Results.Plain then None else r.data,
       failData := if level == Results.WithFailData then r.failData else None)
  }

  // ---------------------------------------------------------------------------
  // Conversions

  /** The implicit conversion to `bool`. */
  predicate AsBool<D, F>(r: ValidatedResult<D, F>) {
    r.success
  }

  /** The implicit conversion of a result to the `Result` family at static
      type `level`: the upcast for `Plain`, the explicit downcasts otherwise.
      The validation errors are dropped. */
  function ToResult<D, F>(r: ValidatedResult<D, F>, level: Level): (res: Result<D, F>)
    ensures Results.AsBool(res) == AsBool(r) && res.message == r.message
    ensures level != Results.Plain ==> res.data == r.data
    ensures level == Results.WithFailData ==> res.failData == r.failData
    ensures res == Results.Project(res, level)
  {
    Results.Project(Results.Result(r.success, r.message, r.data, r.failData), level)
  }

  /** The implicit conversion of a `bool`: the verdict as message, default
      Data and FailData, no errors. */
  function FromBool<D, F>(b: bool): ValidatedResult<D, F> {
    New(b, Some(Verdict(b)), None, None, None)
  }

  /** The implicit conversion of a Data value: it succeeds exactly when the
      value is not null, keeps it, and has no errors. */
  function FromData<D, F>(data: Option<D>): ValidatedResult<D, F> {
    New(data.Some?, Some(Verdict(data.Some?)), data, None, None)
  }

  /** The implicit conversion of a FailData value: always a failure with
      message "Failure" and default Data. */
  function FromFailData<D, F>(failData: Option<F>): ValidatedResult<D, F> {
    New(false, Some("Failure"), None, failData, None)
  }

  /** The result an intention converts to at static type `level`, with the
      error list `validation` (null for none). */
  function Converted<D, F>(i: Intention<D, F>, level: Level, validation: Option<seq<ValidationError>>): ValidatedResult<D, F> {
    var p := ProjectIntention(i, level);
    New(p.success, p.message, p.data, p.failData, validation)
  }

  /** The conversion of an intention whose static type is `ResultIntention`:
      Success, Message and the Data and FailData the target type has carry
      over, and the result has no validation errors, even when the intention
      is a `ValidatedIntention` that carries some. */
  function FromIntention<D, F>(i: Intention<D, F>, level: Level): (r: ValidatedResult<D, F>)
    ensures AsBool(r) == IntentionAsBool(i) && r.message == i.message
    ensures r.data == (if level == Plain then None else i.data)
    ensures r.failData == (if level == WithFailData then i.failData else None)
    ensures r.validationErrors == []
  {
    Converted(i, level, None)
  }

  /** The conversion of a `ValidatedIntention`: the underlying intention
      converts as for `Result`, and the errors are its validation list, or
      an empty one for null. */
  function FromValidatedIntention<D, F>(v: ValidatedIntention<D, F>, level: Level): (r: ValidatedResult<D, F>)
    ensures r.validationErrors == v.validation.GetOr([])
    ensures ToResult(r, level) == Results.FromIntention(v.intention, level)
  {
    Converted(v.intention, level, v.validation)
  }

  // ---------------------------------------------------------------------------
  // The `ValidatedResults` factories

  /** `new ValidatedIntention(result)`: the verdict as message, no data and
      no validation list. */
  function NewIntention<D, F>(success: bool): ValidatedIntention<D, F> {
    ValidatedIntention(Intention(success, Some(Verdict(success)), None, None), None)
  }

  /** A `ValidatedResults` factory without a validation argument is the
      matching `Results` factory with a null validation list. */
  function WithoutValidation<D, F>(i: Intention<D, F>): (v: ValidatedIntention<D, F>)
    ensures v.intention == i && v.validation.None?
    ensures FromValidatedIntention(v, Results.WithFailData).validationErrors == []
  {
    ValidatedIntention(i, None)
  }

  /** `Failure(data, fdata, error, validation)` and its shorter overloads:
      `validation.ToList()` throws on a null sequence; otherwise the intention
      fails with the given Data, FailData, message and a copy of the list. */
  function FailureWithValidation<D, F>(data: Option<D>, failData: Option<F>, message: Option<string>, validation: Option<seq<ValidationError>>): (o: Outcome<ValidatedIntention<D, F>>)
    ensures o.Throws? <==> validation.None?
    ensures o.Throws? ==> o.error == ArgumentNullException
    ensures o.Returns? ==> o.value.intention == Results.FailureWith(data, failData, message)
    ensures o.Returns? ==> o.value.validation == validation
  {
    if validation.None? then Throws(ArgumentNullException)
    else Returns(ValidatedIntention(Results.FailureWith(data, failData, message), validation))
  }

  /** `Failure(error, validation)`: unsuccessful, the error as message and the
      validation list materialised. */
  function FailureValidation<D, F>(error: Option<string>, validation: Option<seq<ValidationError>>): Outcome<ValidatedIntention<D, F>> {
    FailureWithValidation(None, None, error, validation)
  }

  /** `Failure(error, validation)` throws exactly on a null sequence, and
      otherwise fails with the error as message and carries the list. */
  lemma FailureValidationFails<D, F>(error: Option<string>, validation: Option<seq<ValidationError>>)
    ensures FailureValidation<D, F>(error, validation).Throws? <==> validation.None?
    ensures var o := FailureValidation<D, F>(error, validation);
            o.Returns? ==> !IntentionAsBool(o.value.intention) && o.value.intention.message == error
    ensures var o := FailureValidation<D, F>(error, validation);
            o.Returns? ==> o.value.validation == validation
  {
  }

  /** Each validated failure converts, at every level, to an unsuccessful
      result carrying exactly the errors it was given. */
  lemma {:induction false} ValidatedFailureConverts<D, F>(data: Option<D>, failData: Option<F>, message: Option<string>, errors: seq<ValidationError>, level: Level)
    ensures FailureWithValidation(data, failData, message, Some(errors)).Returns?
    ensures var r := FromValidatedIntention(FailureWithValidation(data, failData, message, Some(errors)).value, level);
            !AsBool(r) && r.message == message && r.validationErrors == errors
    ensures var r := FromIntention(FailureWithValidation(data, failData, message, Some(errors)).value.intention, level);
            !AsBool(r) && r.validationErrors == []
  {
  }

  // ---------------------------------------------------------------------------
  // OnFail and OnSuccess

  /** `OnFail(action)`: the action's value on a failure, the default (`None`)
      otherwise. */
  function OnFail<D, F, R>(r: ValidatedResult<D, F>, action: ValidatedResult<D, F> -> Option<R>): (v: Option<R>)
    ensures AsBool(r) ==> v.None?
    ensures !AsBool(r) ==> v == action(r)
  {
    if !r.success then action(r) else None
  }

  /** `OnSuccess(action)`: the action's value on a success, the default
      (`None`) otherwise. */
  function OnSuccess<D, F, R>(r: ValidatedResult<D, F>, action: ValidatedResult<D, F> -> Option<R>): (v: Option<R>)
    ensures AsBool(r) ==> v == action(r)
    ensures !AsBool(r) ==> v.None?
  {
    if r.success then action(r) else None
  }

  /** The validated handlers decide exactly as the `Result` ones do on the
      downcast result. */
  lemma {:induction false} HandlersAgreeWithResults<D, F, R>(r: ValidatedResult<D, F>, action: ValidatedResult<D, F> -> Option<R>)
    ensures OnFail(r, action) == Results.OnFail(ToResult(r, Results.WithFailData), _ => action(r))
    ensures OnSuccess(r, action) == Results.OnSuccess(ToResult(r, Results.WithFailData), _ => action(r))
  {
  }

  // ---------------------------------------------------------------------------
  // From

  /** `ValidatedResults.From` of a validated result seen at static type
      `level`: Success, Message, the errors, and the Data and FailData that
      type has. */
  function From<D, F>(r: ValidatedResult<D, F>, level: Level): (v: ValidatedIntention<D, F>)
    ensures IntentionAsBool(v.intention) == AsBool(r) && v.intention.message == r.message
    ensures level != Plain ==> v.intention.data == r.data
    ensures level == WithFailData ==> v.intention.failData == r.failData
    ensures level == Plain ==> v.intention.data.None?
    ensures level != WithFailData ==> v.intention.failData.None?
    ensures v.validation == Some(r.validationErrors)
  {
    var p := Project(r, level);
    ValidatedIntention(Intention(p.success, p.message, p.data, p.failData), Some(r.validationErrors))
  }

  /** `ValidatedResults.From` of a plain `Result`: no validation list. */
  function FromResult<D, F>(r: Result<D, F>, level: Level): (v: ValidatedIntention<D, F>)
    ensures v.intention == Results.From(r, level) && v.validation.None?
    ensures FromValidatedIntention(v, level).validationErrors == []
  {
    ValidatedIntention(Results.From(r, level), None)
  }

  /** `From` and the conversion back are inverse up to the fields the level
      does not have; the errors always survive. */
  lemma {:induction false} FromRoundTrip<D, F>(r: ValidatedResult<D, F>, level: Level)
    ensures FromValidatedIntention(From(r, level), level) == Project(r, level)
    ensures FromValidatedIntention(From(r, Results.WithFailData), Results.WithFailData) == r
    ensures AsBool(FromValidatedIntention(From(r, level), level)) == AsBool(r)
  {
  }

  /** Each validated conversion and factory is its `Results` counterpart on
      the downcast result, with an empty (or, for an intention, no)
      validation list. */
  lemma AgreesWithResults<D, F>(b: bool, data: Option<D>, failData: Option<F>, i: Intention<D, F>,
                                r: ValidatedResult<D, F>, level: Level)
    ensures ToResult(FromBool<D, F>(b), WithFailData) == Results.FromBool(b)
    ensures ToResult(FromData<D, F>(data), WithFailData) == Results.FromData(data)
    ensures ToResult(FromFailData<D, F>(failData), WithFailData) == Results.FromFailData(failData)
    ensures FromBool<D, F>(b).validationErrors == [] && FromData<D, F>(data).validationErrors == []
    ensures FromFailData<D, F>(failData).validationErrors == []
    ensures ToResult(FromIntention(i, level), level) == Results.FromIntention(i, level)
    ensures NewIntention<D, F>(b).intention == Results.NewIntention(b) && NewIntention<D, F>(b).validation.None?
    ensures From(r, level).intention == Results.From(ToResult(r, level), level)
  {
  }
}
