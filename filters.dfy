/**
 * The per-field filters a criteria object carries (`LongFilter`, `StringFilter`,
 * `LocalDateFilter`, `DoubleFilter`, `IntegerFilter`) and the column values they
 * are judged against. What a filter accepts is decided by the filter library,
 * which is not part of this model: every operation that needs it takes a
 * `Satisfies` function as a parameter and assumes nothing about it.
 */
module Filters {
  import opened Wrappers

  /** The concrete filter class, one per column type of the entities. */
  datatype FilterKind = LongFilter | StringFilter | LocalDateFilter | DoubleFilter | IntegerFilter

  /** The operator suffixes a query string may bind (`id.greaterThan=5`). */
  datatype Operator =
    | EqualsOp | NotEqualsOp | InOp | NotInOp | SpecifiedOp
    | GreaterThanOp | LessThanOp | GreaterThanOrEqualOp | LessThanOrEqualOp
    | ContainsOp | DoesNotContainOp

  /**
   * A filter as a value: its class and the raw operand bound to each operator
   * that is set. Two filters are equal exactly when they have the same class
   * and the same settings, as the library's structural `equals` says.
   */
  datatype Filter = Filter(kind: FilterKind, settings: map<Operator, string>)

  /** A freshly constructed filter (`new LongFilter()`): no operator is set. */
  function EmptyFilter(kind: FilterKind): Filter
  {
    Filter(kind, map[])
  }

  /**
   * The value of one column of one row. Dates and doubles are opaque: only
   * their identity matters to this model (a `LocalDate` by its epoch day, a
   * `Double` by its IEEE 754 bit pattern), never their order or arithmetic.
   */
  datatype Value =
    | Whole(n: int)
    | Text(s: string)
    | Date(epochDay: int)
    | Float64(bits: bv64)

  /**
   * The filter library's judgement: does this filter accept this column value
   * (`None` for SQL NULL)? Left abstract on purpose.
   */
  type Satisfies = (Filter, Option<Value>) -> bool
}
