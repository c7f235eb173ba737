/**
  The values an option can hold, their type tags, the two storage sources,
  the host functions the engine relies on but does not define, and the
  engine's equality comparer.
 */
module Values {
  import opened Wrappers
  import Decimal

  /** The four type constructors an option may declare (String, Number, Boolean, Date). */
  datatype Tag = Text | Number | Boolean | DateTime

  /**
    A JavaScript value of one of the four option types. Numbers are integers;
    a Date is either a time value in milliseconds or the invalid date.
   */
  datatype Value =
    | Str(s: string)
    | Num(n: int)
    | Bool(b: bool)
    | Date(ms: int)
    | InvalidDate

  /** The constructor of a value (value.constructor). */
  function TagOf(v: Value): Tag {
    match v
    case Str(_) => Text
    case Num(_) => Number
    case Bool(_) => Boolean
    case Date(_) => DateTime
    case InvalidDate => DateTime
  }

  /** The storage sources. */
  datatype SourceId = Cookie | Fragment

  /** Precedence order of the sources: on a conflict the later one wins. */
  const Order: seq<SourceId> := [Cookie, Fragment]

  /**
    Functions of the JavaScript host that the engine calls but that are not
    part of this model:
      dateText  - Date.prototype.toString of a time value (time-zone dependent);
      isoText   - Date.prototype.toJSON of a time value (used by the cookie's JSON);
      number    - the Number constructor applied to a stored string;
      parseDate - new Date(string) for a string the ISO pattern rejects
                  (None is the invalid date);
      tzOffset  - Date.prototype.getTimezoneOffset of a time value, in minutes.
   */
  datatype Host = Host(
    dateText: int -> string,
    isoText: int -> string,
    number: string -> int,
    parseDate: string -> Option<int>,
    tzOffset: int -> int)

  predicate IsDate(v: Value) {
    v.Date? || v.InvalidDate?
  }

  /** toString of a date value. */
  function DateString(host: Host, v: Value): string
    requires IsDate(v)
  {
    if v.InvalidDate? then "Invalid Date" else host.dateText(v.ms)
  }

  /**
    The comparer installed on every option: two dates are equal when their
    string forms are; otherwise the values must be the same primitive.
   */
  predicate Equal(host: Host, a: Value, b: Value)
    ensures Equal(host, a, b) ==> TagOf(a) == TagOf(b)
    ensures !IsDate(a) ==> (Equal(host, a, b) <==> a == b)
    ensures a.InvalidDate? && b.InvalidDate? ==> Equal(host, a, b)
  {
    if IsDate(a) && IsDate(b) then DateString(host, a) == DateString(host, b)
    else !IsDate(a) && a == b
  }

  /**
    On the values of this model the comparer is an equivalence relation, and
    it never relates values of different types.
   */
  lemma EqualIsEquivalence(host: Host)
    ensures forall a :: Equal(host, a, a)
    ensures forall a, b :: Equal(host, a, b) ==> Equal(host, b, a)
    ensures forall a, b, c :: Equal(host, a, b) && Equal(host, b, c) ==> Equal(host, a, c)
    ensures forall a, b :: Equal(host, a, b) ==> TagOf(a) == TagOf(b)
  {
  }

  /** A date is never equal to a value that is not a date, in either order. */
  lemma DateNeverEqualsPrimitive(host: Host, d: Value, p: Value)
    requires IsDate(d) && !IsDate(p)
    ensures !Equal(host, d, p) && !Equal(host, p, d)
  {
  }

  /** String(v): the text the fragment's query-string encoding starts from. */
  function ToText(host: Host, v: Value): string {
    match v
    case Str(s) => s
    case Num(n) => Decimal.IntText(n)
    case Bool(b) => if b then "true" else "false"
    case Date(ms) => host.dateText(ms)
    case InvalidDate => "Invalid Date"
  }

  /**
    What a source returns under a name when it is read. The fragment's query
    string only yields text; the cookie's JSON also yields numbers, booleans
    and null, the last being what toJSON writes for an invalid date.
   */
  datatype Entry =
    | Stored(text: string)
    | JsonNumber(n: int)
    | JsonBool(b: bool)
    | JsonNull

  /** JSON.stringify of a value, as the entry $.parseJSON gives back for it. */
  function ToJson(host: Host, v: Value): Entry {
    match v
    case Str(s) => Stored(s)
    case Num(n) => JsonNumber(n)
    case Bool(b) => JsonBool(b)
    case Date(ms) => Stored(host.isoText(ms))
    case InvalidDate => JsonNull
  }
}
