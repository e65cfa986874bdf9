/** The message shown by the sign-in error page for the `error` query parameter.

    The page reads `errorMessages[error]` from a plain object literal. A
    JavaScript object literal also answers the names it inherits from
    `Object.prototype`, so the lookup as written can yield a function or an object
    instead of a table entry. `MessageAsWritten` models that lookup;
    `SelectMessage` is the intended own-key lookup with the `Default` fallback. */
module AuthErrorPage {
  import opened Wrappers

  const DefaultKey: string := "Default"

  /** The `errorMessages` table. */
  const ErrorMessages: map<string, string> := map[
    "Configuration" := "There is a problem with the server configuration.",
    "AccessDenied" := "Access denied. You do not have permission to sign in.",
    "Verification" := "The verification token has expired or has already been used.",
    "OAuthSignin" := "Error in constructing an authorization URL.",
    "OAuthCallback" := "Error in handling the response from the OAuth provider.",
    "OAuthCreateAccount" := "Could not create OAuth provider user in the database.",
    "EmailCreateAccount" := "Could not create email provider user in the database.",
    "Callback" := "Error in the OAuth callback handler route.",
    "OAuthAccountNotLinked" := "Email already associated with another account.",
    "SessionRequired" := "Please sign in to access this page.",
    DefaultKey := "Unable to sign in. Please try again."]

  /** Every message of the table is non-empty (each is truthy in JavaScript). */
  lemma MessagesNonEmpty()
    ensures DefaultKey in ErrorMessages
    ensures forall k :: k in ErrorMessages ==> ErrorMessages[k] != ""
  {
  }

  /** `errorMessages[error] || errorMessages.Default`, as an own-key lookup: the
      message for `error` when the table has it, the Default message otherwise,
      and the Default message when the parameter is absent or empty. */
  function SelectMessage(error: Option<string>): (message: string)
    ensures message in ErrorMessages.Values && message != ""
    ensures error.Some? && error.value in ErrorMessages ==> message == ErrorMessages[error.value]
    ensures error.None? || error.value !in ErrorMessages ==> message == ErrorMessages[DefaultKey]
  {
    MessagesNonEmpty();
    if error.Some? && error.value in ErrorMessages then ErrorMessages[error.value]
    else ErrorMessages[DefaultKey]
  }

  // ----- The lookup as written, on JavaScript values. -----

  /** The values a property read on the table can give. */
  datatype JsValue = JsUndefined | JsString(text: string) | JsFunction(name: string) | JsObject

  /** The methods every object literal inherits from `Object.prototype`. */
  const InheritedMethods: set<string> := {
    "constructor", "hasOwnProperty", "isPrototypeOf", "propertyIsEnumerable",
    "toLocaleString", "toString", "valueOf",
    "__defineGetter__", "__defineSetter__", "__lookupGetter__", "__lookupSetter__"}

  /** The accessor that yields the prototype object itself. */
  const ProtoAccessor: string := "__proto__"

  /** `errorMessages[key]` on the object literal. */
  function PropertyOf(key: string): (value: JsValue)
    ensures value.JsString? <==> key in ErrorMessages
    ensures value.JsUndefined? <==> key !in ErrorMessages && key !in InheritedMethods && key != ProtoAccessor
  {
    if key in ErrorMessages then JsString(ErrorMessages[key])
    else if key in InheritedMethods then JsFunction(key)
    else if key == ProtoAccessor then JsObject
    else JsUndefined
  }

  predicate Truthy(value: JsValue)
  {
    match value
    case JsUndefined => false
    case JsString(text) => text != ""
    case _ => true
  }

  /** `error ? errorMessages[error] || errorMessages.Default : errorMessages.Default`. */
  function MessageAsWritten(error: Option<string>): (message: JsValue)
    ensures message.JsString? || (error.Some? && (error.value in InheritedMethods || error.value == ProtoAccessor))
  {
    if error.Some? && error.value != "" then
      var value := PropertyOf(error.value);
      if Truthy(value) then value else JsString(ErrorMessages[DefaultKey])
    else JsString(ErrorMessages[DefaultKey])
  }

  /** `?error=toString` selects the inherited method, not a message;
      `?error=__proto__` selects the prototype object. */
  lemma InheritedNameSelectsNoMessage()
    ensures MessageAsWritten(Some("toString")) == JsFunction("toString")
    ensures MessageAsWritten(Some("__proto__")) == JsObject
  {
    assert "toString" !in ErrorMessages && "toString" in InheritedMethods;
    assert "__proto__" !in ErrorMessages && "__proto__" !in InheritedMethods;
  }

  /** Away from the inherited names, the lookup as written and the own-key lookup
      give the same message. */
  lemma AsWrittenAgreesOffPrototype(error: Option<string>)
    requires error.None? || (error.value !in InheritedMethods && error.value != ProtoAccessor)
    ensures MessageAsWritten(error) == JsString(SelectMessage(error))
  {
    MessagesNonEmpty();
  }

  /** A known code gives its entry; the Default code gives the Default message. */
  lemma KnownCodes()
    ensures SelectMessage(Some("AccessDenied")) == "Access denied. You do not have permission to sign in."
    ensures SelectMessage(Some(DefaultKey)) == SelectMessage(None)
    ensures SelectMessage(Some("")) == SelectMessage(None)
  {
    assert "" !in ErrorMessages;
  }
}
