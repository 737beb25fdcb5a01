/** The outcome types of `Result.cs`: `Result`, `Result<D>`, `Result<D,F>`, the
    untyped `ResultIntention` that the `Results` factories build, and the
    conversions between them.

    The three result classes form one inheritance chain, so they are one record
    here. A `Result` has no Data and a `Result<D>` no FailData; those fields
    are null (`None`) in the record. Which overload of a conversion C# picks
    depends on the static type of its argument; that static type is the
    `Level` parameter of the conversions below.

    `default(D)` is null. An intention's Data and FailData are typed by the
    result they are converted to, so the reflective `DataAs`/`FailAs` cast
    takes its `o is T` branch and hands the value over unchanged.
 */
module Results {
  import opened Wrappers
  import opened Text
  import StringExtensions

  /** A `Result`, `Result<D>` or `Result<D,F>`. */
  datatype Result<D, F> = Result(success: bool, message: Option<string>, data: Option<D>, failData: Option<F>)

  /** A `ResultIntention`: the untyped outcome the factories return. */
  datatype Intention<D, F> = Intention(success: bool, message: Option<string>, data: Option<D>, failData: Option<F>)

  /** The static type a value is seen at: `Result`, `Result<D>` or `Result<D,F>`. */
  datatype Level = Plain | WithData | WithFailData

  /** The message the source pairs with a bare success flag. */
  function Verdict(success: bool): string {
    if success then "Success" else "Failure"
  }

  /** `r` seen at static type `level`: the fields that type lacks are null. */
  function Project<D, F>(r: Result<D, F>, level: Level): Result<D, F> {
    Result(r.success, r.message,
           if level == Plain then None else r.data,
           if level == WithFailData then r.failData else None)
  }

  /** `i` with only the parts a conversion to `level` can observe. */
  function ProjectIntention<D, F>(i: Intention<D, F>, level: Level): Intention<D, F> {
    Intention(i.success, i.message,
              if level == Plain then None else i.data,
              if level == WithFailData then i.failData else None)
  }

  // ---------------------------------------------------------------------------
  // Conversions to and from bool

  /** The implicit conversion of a result to `bool`. */
  predicate AsBool<D, F>(r: Result<D, F>) {
    r.success
  }

  /** The implicit conversion of a `bool` to a result of any level: Data and
      FailData are the type defaults. Its contract is `BoolRoundTrip`. */
  function FromBool<D, F>(b: bool): Result<D, F> {
    Result(b, Some(Verdict(b)), None, None)
  }

  /** `ToString`: "Success" for a success, otherwise the message, or "Failure"
      when the message is null or blank. The text is never blank. */
  function Describe<D, F>(r: Result<D, F>): (s: string)
    ensures !IsBlank(s)
    ensures r.success ==> s == "Success"
    ensures !r.success && !IsNullOrBlank(r.message) ==> s == r.message.value
    ensures !r.success && IsNullOrBlank(r.message) ==> s == "Failure"
  {
    if r.success then
      NotBlankAt("Success", 0);
      "Success"
    else
      NotBlankAt("Failure", 0);
      StringExtensions.IfNullOrBlankNotBlank(r.message, Some("Failure"));
      StringExtensions.IfNullOrBlank(r.message, Some("Failure")).value
  }

  /** A bool survives the round trip through a result, and the result's text
      is its own message. A result converts back from its flag exactly when
      it carries nothing but the flag's own message. */
  lemma BoolRoundTrip<D, F>(b: bool, r: Result<D, F>)
    ensures AsBool(FromBool<D, F>(b)) == b
    ensures FromBool<D, F>(b).message == Some(if b then "Success" else "Failure")
    ensures FromBool<D, F>(b).data.None? && FromBool<D, F>(b).failData.None?
    ensures Describe(FromBool<D, F>(b)) == FromBool<D, F>(b).message.value
    ensures FromBool(AsBool(r)) == r <==>
              r.message == Some(Verdict(r.success)) && r.data.None? && r.failData.None?
  {
    NotBlankAt("Failure", 0);
  }

  // ---------------------------------------------------------------------------
  // Conversions from data

  /** The implicit conversion of a Data value to `Result<D>` or `Result<D,F>`.
      Its contract is `FromDataLikeBool`. */
  function FromData<D, F>(data: Option<D>): Result<D, F> {
    Result(data.Some?, Some(Verdict(data.Some?)), data, None)
  }

  /** The data conversion succeeds exactly when the value is not null, and
      stores it: null data converts like `false`, other data like `true` plus
      the data. */
  lemma FromDataLikeBool<D, F>(data: Option<D>)
    ensures AsBool(FromData<D, F>(data)) <==> data.Some?
    ensures FromData<D, F>(data).data == data && FromData<D, F>(data).failData.None?
    ensures Describe(FromData<D, F>(data)) == (if data.Some? then "Success" else "Failure")
    ensures data.None? ==> FromData<D, F>(data) == FromBool(false)
    ensures data.Some? ==> FromData<D, F>(data) == FromBool(true).(data := data)
  {
  }

  /** The implicit conversion of a FailData value to `Result<D,F>`. Its
      contract is `FromFailDataLikeFalse`. */
  function FromFailData<D, F>(failData: Option<F>): Result<D, F> {
    Result(false, Some("Failure"), None, failData)
  }

  /** A FailData conversion is always a failure, with default Data, whatever
      the value (null included): it differs from `false` only in the FailData. */
  lemma FromFailDataLikeFalse<D, F>(failData: Option<F>)
    ensures !AsBool(FromFailData<D, F>(failData)) && Describe(FromFailData<D, F>(failData)) == "Failure"
    ensures FromFailData<D, F>(failData).data.None? && FromFailData<D, F>(failData).failData == failData
    ensures FromFailData<D, F>(failData) == FromBool(false).(failData := failData)
    ensures FromFailData<D, F>(None) == FromBool(false)
  {
  }

  // ---------------------------------------------------------------------------
  // Intentions

  /** `new ResultIntention(success)`. Its contract is `NewIntentionConverts`. */
  function NewIntention<D, F>(success: bool): Intention<D, F> {
    Intention(success, Some(Verdict(success)), None, None)
  }

  /** The implicit conversion of an intention to `bool`. */
  predicate IntentionAsBool<D, F>(i: Intention<D, F>) {
    i.success
  }

  /** The implicit conversion of an intention to a result of static type
      `level`: Success and Message carry over, and so do the Data and
      FailData that type has. */
  function FromIntention<D, F>(i: Intention<D, F>, level: Level): (r: Result<D, F>)
    ensures AsBool(r) == IntentionAsBool(i) && r.message == i.message
    ensures r.data == (if level == Plain then None else i.data)
    ensures r.failData == (if level == WithFailData then i.failData else None)
  {
    Result(i.success, i.message,
           if level == Plain then None else i.data,
           if level == WithFailData then i.failData else None)
  }

  /** `Results.From`: the intention of a result seen at static type `level`,
      with Success, Message and the Data and FailData that type has. */
  function From<D, F>(r: Result<D, F>, level: Level): (i: Intention<D, F>)
    ensures IntentionAsBool(i) == AsBool(r) && i.message == r.message
    ensures level != Plain ==> i.data == r.data
    ensures level == WithFailData ==> i.failData == r.failData
    ensures level == Plain ==> i.data.None?
    ensures level != WithFailData ==> i.failData.None?
  {
    Intention(r.success, r.message,
              if level == Plain then None else r.data,
              if level == WithFailData then r.failData else None)
  }

  /** `From` and the conversion back are inverse at every level, up to the
      fields the level does not have. */
  lemma {:induction false} FromRoundTrip<D, F>(r: Result<D, F>, i: Intention<D, F>, level: Level)
    ensures FromIntention(From(r, level), level) == Project(r, level)
    ensures From(FromIntention(i, level), level) == ProjectIntention(i, level)
    ensures FromIntention(From(r, WithFailData), WithFailData) == r
  {
  }

  // ---------------------------------------------------------------------------
  // The `Results` factories

  /** `Results.Success()` and `Results.Success(data)`. Its contract is
      `SuccessConverts`. */
  function Success<D, F>(data: Option<D>): Intention<D, F> {
    NewIntention<D, F>(true).(data := data)
  }

  /** `Results.Failure(error)`. Its contract is `FailureConverts`. */
  function Failure<D, F>(error: Option<string>): Intention<D, F> {
    Intention(false, error, None, None)
  }

  /** `Results.Failure(data, fdata, error)`. */
  function FailureWith<D, F>(data: Option<D>, failData: Option<F>, error: Option<string>): (i: Intention<D, F>)
    ensures !IntentionAsBool(i) && i.message == error
    ensures i.data == data && i.failData == failData
  {
    Intention(false, error, data, failData)
  }

  /** `Results.Failure(data, fdata)`: the message is "Failure". */
  function FailureOf<D, F>(data: Option<D>, failData: Option<F>): (i: Intention<D, F>)
    ensures !IntentionAsBool(i) && i.message == Some("Failure")
    ensures i.data == data && i.failData == failData
  {
    NewIntention<D, F>(false).(data := data, failData := failData)
  }

  /** `Results.Failure(data)`: the one value is both Data and FailData. */
  function FailureData<T>(data: Option<T>): (i: Intention<T, T>)
    ensures !IntentionAsBool(i) && i.message == Some("Failure")
    ensures i.data == data && i.failData == data
  {
    FailureOf(data, data)
  }

  /** `Results.Failure(data, error)`: the one value is both Data and FailData. */
  function FailureDataError<T>(data: Option<T>, error: Option<string>): (i: Intention<T, T>)
    ensures !IntentionAsBool(i) && i.message == error
    ensures i.data == data && i.failData == data
  {
    FailureWith(data, data, error)
  }

  /** A new intention carries the verdict as its message and no data, and
      converts at every level exactly as the `bool` does. */
  lemma NewIntentionConverts<D, F>(success: bool, level: Level)
    ensures IntentionAsBool(NewIntention<D, F>(success)) == success
    ensures NewIntention<D, F>(success).message == Some(if success then "Success" else "Failure")
    ensures NewIntention<D, F>(success).data.None? && NewIntention<D, F>(success).failData.None?
    ensures FromIntention(NewIntention<D, F>(success), level) == FromBool(success)
  {
  }

  /** `Success(data)` succeeds with message "Success" and the data; seen as a
      `Result` it is `true`, and seen as a `Result<D>` holding data it is the
      data's own conversion. */
  lemma SuccessConverts<D, F>(data: Option<D>, level: Level)
    ensures IntentionAsBool(Success<D, F>(data)) && Success<D, F>(data).message == Some("Success")
    ensures Success<D, F>(data).data == data && Success<D, F>(data).failData.None?
    ensures level == Plain ==> FromIntention(Success<D, F>(data), level) == FromBool(true)
    ensures level != Plain && data.Some? ==> FromIntention(Success<D, F>(data), level) == FromData(data)
  {
  }

  /** `Failure(error)` fails with the error as message and no data, and
      converts at every level to `false` with that message. */
  lemma FailureConverts<D, F>(error: Option<string>, level: Level)
    ensures !IntentionAsBool(Failure<D, F>(error)) && Failure<D, F>(error).message == error
    ensures Failure<D, F>(error).data.None? && Failure<D, F>(error).failData.None?
    ensures FromIntention(Failure<D, F>(error), level) == FromBool(false).(message := error)
  {
  }

  /** Whatever a failure factory is given, the result it converts to fails at
      every level, and its text is the error unless that is null or blank. */
  lemma {:induction false} FailuresConvertToFailures<D, F>(data: Option<D>, failData: Option<F>, error: Option<string>, level: Level)
    ensures !AsBool(FromIntention(Failure<D, F>(error), level))
    ensures !AsBool(FromIntention(FailureOf(data, failData), level))
    ensures !AsBool(FromIntention(FailureWith(data, failData, error), level))
    ensures Describe(FromIntention(FailureWith(data, failData, error), level))
              == (if IsNullOrBlank(error) then "Failure" else error.value)
    ensures Describe(FromIntention(FailureOf(data, failData), level)) == "Failure"
    ensures AsBool(FromIntention(Success<D, F>(data), level))
  {
    var r := FromIntention(FailureWith(data, failData, error), level);
    assert r.message == error;
    NotBlankAt("Failure", 0);
  }

  // ---------------------------------------------------------------------------
  // OnFail and OnSuccess

  /** `OnFail(action)`: the action's value on a failure, the default (`None`)
      on a success. */
  function OnFail<D, F, R>(r: Result<D, F>, action: Result<D, F> -> Option<R>): (v: Option<R>)
    ensures AsBool(r) ==> v.None?
    ensures !AsBool(r) ==> v == action(r)
  {
    if !r.success then action(r) else None
  }

  /** `OnSuccess(action)`: the action's value on a success, the default
      (`None`) on a failure. */
  function OnSuccess<D, F, R>(r: Result<D, F>, action: Result<D, F> -> Option<R>): (v: Option<R>)
    ensures AsBool(r) ==> v == action(r)
    ensures !AsBool(r) ==> v.None?
  {
    if r.success then action(r) else None
  }

  /** The results the `Action` overload of `OnFail` passes to its action. */
  function OnFailCalls<D, F>(r: Result<D, F>): (calls: seq<Result<D, F>>)
    ensures |calls| <= 1 && (forall k :: 0 <= k < |calls| ==> calls[k] == r)
    ensures |calls| == 1 <==> !AsBool(r)
  {
    if !r.success then [r] else []
  }

  /** The results the `Action` overload of `OnSuccess` passes to its action. */
  function OnSuccessCalls<D, F>(r: Result<D, F>): (calls: seq<Result<D, F>>)
    ensures |calls| <= 1 && (forall k :: 0 <= k < |calls| ==> calls[k] == r)
    ensures |calls| == 1 <==> AsBool(r)
  {
    if r.success then [r] else []
  }

  /** Exactly one of `OnFail` and `OnSuccess` runs its action, and the one
      that runs returns the action's value. */
  lemma {:induction false} ExactlyOneHandlerRuns<D, F, R>(r: Result<D, F>, action: Result<D, F> -> Option<R>)
    ensures |OnFailCalls(r) + OnSuccessCalls(r)| == 1
    ensures OnFailCalls(r) + OnSuccessCalls(r) == [r]
    ensures OnFail(r, action) == action(r) || OnSuccess(r, action) == action(r)
    ensures action(r).Some? ==> OnFail(r, action).None? != OnSuccess(r, action).None?
  {
    if r.success {
      assert OnFailCalls(r) == [];
    } else {
      assert OnSuccessCalls(r) == [];
    }
  }
}
