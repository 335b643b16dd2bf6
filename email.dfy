/** The `Email` record of `Mariowski.Common.DataTypes`: a mail address that
    was checked against the address pattern and stored in lower case. */
module DataTypesEmail {
  import opened Common
  import opened Ascii
  import opened EmailPattern
  import MailAddressValidator

  /** `InvalidEmailException` carries the rejected value; `NullReference`
      is what reading a null `Email` throws. */
  datatype EmailError = InvalidEmail(value: Option<string>) | NullReference

  /** An instance of the record: its one property `Value`. The record's
      generated equality compares `Value`, which is what datatype equality
      does here. */
  datatype Email = Email(value: string) {

    /** The record's `Equals(Email other)`: false for null. */
    function Equals(other: Option<Email>): (r: bool)
      ensures r <==> other == Some(this)
    {
      other.Some? && value == other.value.value
    }
  }

  /** `Email.IsValid`: false for null, otherwise whether the whole string
      matches the address pattern. */
  function IsValid(value: Option<string>): (r: bool)
    ensures r <==> value.Some? && Matches(value.value)
  {
    value.Some? && Recognize(value.value)
  }

  /** `new Email(value)`, which the implicit string-to-Email conversion also
      calls: an invalid value (null included) throws, a valid one is stored
      lower-cased. */
  function New(value: Option<string>): (r: Result<Email, EmailError>)
    ensures r.Err? <==> !IsValid(value)
    ensures r.Err? ==> r.error == InvalidEmail(value)
    ensures r.Ok? ==> r.value.value == ToLowerString(value.value)
  {
    if !IsValid(value) then Err(InvalidEmail(value))
    else Ok(Email(ToLowerString(value.value)))
  }

  /** The implicit Email-to-string conversion: the stored value, or a null
      dereference for a null Email. */
  function AsString(email: Option<Email>): (r: Result<string, EmailError>)
    ensures email.None? <==> r == Err(NullReference)
    ensures email.Some? ==> r == Ok(email.value.value)
  {
    match email
    case None => Err(NullReference)
    case Some(e) => Ok(e.value)
  }

  /** `operator ==`: null equals only null. */
  function Eq(left: Option<Email>, right: Option<Email>): (r: bool)
    ensures r <==> left == right
  {
    if left.None? then right.None? else right.Some? && left.value.Equals(right)
  }

  /** `operator !=` */
  function NotEq(left: Option<Email>, right: Option<Email>): (r: bool)
    ensures r <==> left != right
  {
    !Eq(left, right)
  }

  /** The record's pattern is the validator's. */
  lemma SameAsMailAddressValidator(value: Option<string>)
    ensures IsValid(value) == MailAddressValidator.IsValid(value)
  {
  }

  /** The stored value has no upper-case letter, is itself a valid address,
      and making an Email from it gives the same Email back. */
  lemma ValueIsNormalised(value: Option<string>)
    requires New(value).Ok?
    ensures var v := New(value).value.value;
      && (forall i :: 0 <= i < |v| ==> !IsUpper(v[i]))
      && ToLowerString(v) == v
      && IsValid(Some(v))
      && New(Some(v)) == New(value)
  {
    MatchesToLower(value.value);
    ToLowerStringIdempotent(value.value);
  }

  /** String to Email to string lower-cases a valid address and throws on
      an invalid one. */
  lemma ConversionRoundTrip(s: string)
    ensures IsValid(Some(s)) ==> AsString(Some(New(Some(s)).value)) == Ok(ToLowerString(s))
    ensures !IsValid(Some(s)) ==> New(Some(s)) == Err(InvalidEmail(Some(s)))
  {
  }

  /** Two Emails made from valid strings are `==` exactly when the strings
      agree after lower-casing. */
  lemma EqualIffSameLowered(a: string, b: string)
    requires IsValid(Some(a)) && IsValid(Some(b))
    ensures Eq(Some(New(Some(a)).value), Some(New(Some(b)).value)) <==> ToLowerString(a) == ToLowerString(b)
    ensures NotEq(Some(New(Some(a)).value), Some(New(Some(b)).value)) <==> ToLowerString(a) != ToLowerString(b)
  {
  }
}

/** The `Email` class of `Mariowski.Common.ValueObjects`: the same address
    check through `MailAddressValidator`, with `IEquatable` equality on the
    stored string. */
module ValueObjectsEmail {
  import opened Common
  import opened Ascii
  import opened EmailPattern
  import MailAddressValidator

  /** `InvalidEmailException` carries the rejected value; `NullReference`
      is what dereferencing a null `Email` throws. */
  datatype EmailError = InvalidEmail(value: Option<string>) | NullReference

  /** An instance of the class: its read-only field `_value`. */
  datatype Email = Email(value: string) {

    /** `Equals(Email other)` reads `other._value` without a null check. */
    function Equals(other: Option<Email>): (r: Result<bool, EmailError>)
      ensures other.None? ==> r == Err(NullReference)
      ensures other.Some? ==> r == Ok(other.value == this)
    {
      match other
      case None => Err(NullReference)
      case Some(o) => Ok(value == o.value)
    }

    /** `Equals(object obj)`: only an object that passes `obj is Email`, with
        the same string. */
    function EqualsObject(obj: Object<Email>): (r: bool)
      ensures r <==> obj == SameType(this)
    {
      match obj
      case SameType(o) => Equals(Some(o)) == Ok(true)
      case _ => false
    }

    /** `GetHashCode` is the string's hash; .NET's string hash is a parameter. */
    function GetHashCode(stringHash: string -> int): int {
      stringHash(value)
    }
  }

  /** `new Email(value)`, which the implicit string-to-Email conversion also
      calls. */
  function New(value: Option<string>): (r: Result<Email, EmailError>)
    ensures r.Err? <==> !MailAddressValidator.IsValid(value)
    ensures r.Err? ==> r.error == InvalidEmail(value)
    ensures r.Ok? ==> r.value.value == ToLowerString(value.value)
  {
    if !MailAddressValidator.IsValid(value) then Err(InvalidEmail(value))
    else Ok(Email(ToLowerString(value.value)))
  }

  /** The implicit Email-to-string conversion. */
  function AsString(email: Option<Email>): (r: Result<string, EmailError>)
    ensures email.None? <==> r == Err(NullReference)
    ensures email.Some? ==> r == Ok(email.value.value)
  {
    match email
    case None => Err(NullReference)
    case Some(e) => Ok(e.value)
  }

  /** The stored value has no upper-case letter, passes the validator and
      makes the same Email again. */
  lemma ValueIsNormalised(value: Option<string>)
    requires New(value).Ok?
    ensures var v := New(value).value.value;
      && (forall i :: 0 <= i < |v| ==> !IsUpper(v[i]))
      && MailAddressValidator.IsValid(Some(v))
      && New(Some(v)) == New(value)
      && AsString(Some(New(value).value)) == Ok(v)
  {
    MatchesToLower(value.value);
    ToLowerStringIdempotent(value.value);
  }

  /** Valid inputs that differ only in ASCII case give Emails that are
      `Equals`, by either overload, and so share a hash code; inputs that
      differ otherwise give Emails that are not. */
  lemma EqualsIgnoresCase(a: string, b: string, stringHash: string -> int)
    requires MailAddressValidator.IsValid(Some(a)) && MailAddressValidator.IsValid(Some(b))
    ensures var x, y := New(Some(a)).value, New(Some(b)).value;
      && (x.Equals(Some(y)) == Ok(true) <==> ToLowerString(a) == ToLowerString(b))
      && (x.EqualsObject(SameType(y)) <==> ToLowerString(a) == ToLowerString(b))
      && (ToLowerString(a) == ToLowerString(b) ==> x.GetHashCode(stringHash) == y.GetHashCode(stringHash))
  {
  }

  /** Emails that are `Equals` have the same hash code. */
  lemma EqualsSameHash(x: Email, obj: Object<Email>, stringHash: string -> int)
    requires x.EqualsObject(obj)
    ensures obj.SameType? && x.GetHashCode(stringHash) == obj.value.GetHashCode(stringHash)
  {
  }

  /** `Equals(object)` is false for null and for any other runtime type. */
  lemma EqualsObjectNonEmail(x: Email)
    ensures !x.EqualsObject(Null) && !x.EqualsObject(OtherType)
  {
  }
}
