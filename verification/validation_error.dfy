/** `ValidationError`: a message and the names of the properties it is about,
    with the `Required` and `Invalid` factories.

    A null string interpolates as the empty string, so an `Option<string>`
    inside a message contributes `Shown(o)`. The `badValue` object of
    `Invalid` is given as the text its `ToString` produces.
 */
module Validation {
  import opened Wrappers

  /** A `ValidationError`. `properties` is the `Properties` array. */
  datatype ValidationError = ValidationError(message: Option<string>, properties: Option<seq<Option<string>>>)

  /** What string interpolation writes for a possibly-null string. */
  function Shown(o: Option<string>): string {
    o.GetOr("")
  }

  /** The single-property constructor names exactly that property. */
  predicate NamesOnly(e: ValidationError, property: Option<string>) {
    e.properties == Some([property])
  }

  /** The message-only constructor: no properties, but never a null array. */
  function WithMessage(message: Option<string>): (e: ValidationError)
    ensures e.message == message
    ensures e.properties.Some? && |e.properties.value| == 0
  {
    ValidationError(message, Some([]))
  }

  /** The single-property constructor. */
  function ForProperty(message: Option<string>, property: Option<string>): (e: ValidationError)
    ensures e.message == message && NamesOnly(e, property)
    ensures e.properties.Some? && |e.properties.value| == 1 && e.properties.value[0] == property
  {
    ValidationError(message, Some([property]))
  }

  /** The `params` constructor keeps the array it is given, null included. */
  function ForProperties(message: Option<string>, properties: Option<seq<Option<string>>>): (e: ValidationError)
    ensures e.message == message && e.properties == properties
  {
    ValidationError(message, properties)
  }

  /** Both fixed-arity constructors agree with the `params` one. */
  lemma ConstructorsAgree(message: Option<string>, property: Option<string>)
    ensures WithMessage(message) == ForProperties(message, Some([]))
    ensures ForProperty(message, property) == ForProperties(message, Some([property]))
  {
  }

  const RequiredSuffix := " is required."
  const InvalidSuffix := " has an invalid value."
  const InvalidValueMiddle := "' is not a valid value for "

  /** `Required(p)`: "{p} is required.", about `p` alone. */
  function Required(propertyName: Option<string>): (e: ValidationError)
    ensures NamesOnly(e, propertyName)
    ensures e.message.Some?
    ensures |e.message.value| == |Shown(propertyName)| + |RequiredSuffix|
    ensures e.message.value[..|Shown(propertyName)|] == Shown(propertyName)
    ensures e.message.value[|Shown(propertyName)|..] == RequiredSuffix
  {
    ForProperty(Some(Shown(propertyName) + RequiredSuffix), propertyName)
  }

  /** `Invalid(p)`: "{p} has an invalid value.", about `p` alone. */
  function Invalid(propertyName: Option<string>): (e: ValidationError)
    ensures NamesOnly(e, propertyName)
    ensures e.message.Some?
    ensures |e.message.value| == |Shown(propertyName)| + |InvalidSuffix|
    ensures e.message.value[..|Shown(propertyName)|] == Shown(propertyName)
    ensures e.message.value[|Shown(propertyName)|..] == InvalidSuffix
  {
    ForProperty(Some(Shown(propertyName) + InvalidSuffix), propertyName)
  }

  /** `Invalid(p, badValue)`: "'{badValue}' is not a valid value for {p}.",
      about `p` alone. */
  function InvalidValue(propertyName: Option<string>, badValue: Option<string>): (e: ValidationError)
    ensures NamesOnly(e, propertyName)
    ensures e.message.Some?
    ensures e.message.value ==
              "'" + Shown(badValue) + InvalidValueMiddle + Shown(propertyName) + "."
  {
    ForProperty(Some("'" + Shown(badValue) + InvalidValueMiddle + Shown(propertyName) + "."), propertyName)
  }

  /** The property name a `Required` message is about, if it is one. */
  function RequiredSubject(message: string): (p: Option<string>)
    ensures p.Some? ==> p.value + RequiredSuffix == message
  {
    if |message| >= |RequiredSuffix| && message[|message| - |RequiredSuffix|..] == RequiredSuffix then
      assert message == message[..|message| - |RequiredSuffix|] + message[|message| - |RequiredSuffix|..];
      Some(message[..|message| - |RequiredSuffix|])
    else None
  }

  /** The property name an `Invalid(p)` message is about, if it is one. */
  function InvalidSubject(message: string): (p: Option<string>)
    ensures p.Some? ==> p.value + InvalidSuffix == message
  {
    if |message| >= |InvalidSuffix| && message[|message| - |InvalidSuffix|..] == InvalidSuffix then
      assert message == message[..|message| - |InvalidSuffix|] + message[|message| - |InvalidSuffix|..];
      Some(message[..|message| - |InvalidSuffix|])
    else None
  }

  /** The property name can be read back from a `Required` or `Invalid`
      message, so each is injective in the name's text. */
  lemma {:induction false} SubjectRoundTrip(p: Option<string>, q: Option<string>)
    ensures RequiredSubject(Required(p).message.value) == Some(Shown(p))
    ensures InvalidSubject(Invalid(p).message.value) == Some(Shown(p))
    ensures Required(p).message == Required(q).message ==> Shown(p) == Shown(q)
    ensures Invalid(p).message == Invalid(q).message ==> Shown(p) == Shown(q)
  {
    var m := Required(p).message.value;
    assert m[|m| - |RequiredSuffix|..] == RequiredSuffix;
    assert m[..|m| - |RequiredSuffix|] == Shown(p);
    var n := Invalid(p).message.value;
    assert n[|n| - |InvalidSuffix|..] == InvalidSuffix;
    assert n[..|n| - |InvalidSuffix|] == Shown(p);
    if Required(p).message == Required(q).message {
      var mq := Required(q).message.value;
      assert mq[..|mq| - |RequiredSuffix|] == Shown(q);
    }
    if Invalid(p).message == Invalid(q).message {
      var nq := Invalid(q).message.value;
      assert nq[..|nq| - |InvalidSuffix|] == Shown(q);
    }
  }

  /** A `Required` message is never an `Invalid(p)` message, whatever the
      property names: the kind of error can be told from the text. */
  lemma {:induction false} RequiredIsNotInvalid(p: Option<string>, q: Option<string>)
    ensures Required(p).message != Invalid(q).message
  {
    var m := Required(p).message.value;
    var n := Invalid(q).message.value;
    assert m[|m| - 2] == RequiredSuffix[|RequiredSuffix| - 2] == 'd';
    assert n[|n| - 2] == InvalidSuffix[|InvalidSuffix| - 2] == 'e';
  }
}
