/**
 * What the controller borrows from the JavaScript host and its libraries.
 *
 * None of these are implemented here: the date-format validator of Joi with the
 * @joi/date extension, the `Date` constructor, `Date.prototype.toDateString` and
 * `Number(...)` are library behaviour.  They are gathered in one record of total
 * functions, `Lib`.  Every operation that validates, parses or renders a date, or
 * reads a number from text, takes a `Lib` as a parameter, so the properties proved
 * about those operations hold whatever these libraries do (the one exception is a
 * worked example that fixes what `Lib` says about two date texts).
 */
module Host {
  import opened Wrappers

  /** A JavaScript time value: milliseconds since 1970-01-01T00:00:00Z. */
  type Instant = int

  /** `new Date(0)`: the lower bound used when `from` is absent or rejected. */
  const Epoch: Instant := 0

  /** A MongoDB ObjectId, abstracted to a number handed out by the store. */
  type Id = nat

  datatype Lib = Lib(
    /** `joiDateSchema.validate(text)` reports no error: the text matches one of the 20 accepted layouts. */
    ValidDateText: string -> bool,
    /** `new Date(text)`, and the cast Mongoose applies to a date given as text in a query. */
    ToDate: string -> Instant,
    /** `Date.prototype.toDateString`. */
    Render: Instant -> string,
    /** `Number(text)` when it is a non-negative integer; `None` for NaN and for values outside the model. */
    number: string -> Option<nat>)
}
