/**
 * The `ValidationError`s the query layer raises, one constructor per message,
 * with the text the source gives each and the field the request validators key
 * it on, and the result types that carry them instead of a raise.
 */
module Errors {
  import opened Options
  import opened Text

  datatype ValidationError =
    // raised by the filter deserialiser
    | EmptyValue
    | InvalidValueType
    | UnknownComparisonOperator
    | TooManyValues
    // raised by the sort deserialiser
    | EmptyArgument
    | InvalidSyntax
    | UnsupportedSortKey(key: string)
    | UnknownSortDirection(direction: string)
    // raised by the cursor deserialiser
    | InvalidCursor
    // raised by the request validators, each keyed on a parameter name
    | UnknownParameter(name: string)
    | StartNotBeforeStop
    | LimitExceeded(pageLimit: nat)
    | InvalidVariantId
    | MissingPosition
    | MissingChromosome
    | MissingVariantId

  /** The outcome of a deserialiser: its value, or the error it raises. */
  datatype Result<T> = Ok(value: T) | Err(error: ValidationError)

  /** The outcome of a validator: it returns `True`, or raises. */
  datatype Check = Pass | Fail(error: ValidationError)

  /** The message text the source raises for each error. */
  function Message(e: ValidationError): string {
    match e
    case EmptyValue => "empty value"
    case InvalidValueType => "invalid value type"
    case UnknownComparisonOperator => "unknown comparison operator"
    case TooManyValues => "too many values for comparison operator"
    case EmptyArgument => "empty argument"
    case InvalidSyntax => "invalid syntax"
    case UnsupportedSortKey(key) => "sort in not supported for '" + key + "'"
    case UnknownSortDirection(direction) => "unknown sort direction '" + direction + "'"
    case InvalidCursor => "Invalid value."
    case UnknownParameter(_) => "Unknown parameter."
    case StartNotBeforeStop => "Start position must be greater than stop position."
    case LimitExceeded(pageLimit) => "Page limit must be less than or equal to " + NatToString(pageLimit)
    case InvalidVariantId => "Invalid variant ID format."
    case MissingPosition => "Position is mandatory when chromosome is specified."
    case MissingChromosome => "Chromosome is mandatory when position is specified."
    case MissingVariantId => "Variant ID is mandatory if no other arguments are specified."
  }

  /**
   * The parameter a request validator keys its error on (`{key: [message]}`);
   * `None` for the deserialisers, whose message the parser files under the
   * parameter being deserialised.
   */
  function KeyedField(e: ValidationError): Option<string> {
    match e
    case UnknownParameter(name) => Some(name)
    case StartNotBeforeStop => Some("start")
    case LimitExceeded(_) => Some("limit")
    case InvalidVariantId => Some("variant_id")
    case MissingPosition => Some("pos")
    case MissingChromosome => Some("chrom")
    case MissingVariantId => Some("variant_id")
    case _ => None
  }
}
