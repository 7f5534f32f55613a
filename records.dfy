/**
 * The operation record the report utility reads from its JSON data file.
 * Only the keys the selector and the formatter look at are kept; a missing
 * optional key is `None`.
 */
module Records {

  datatype Option<T> = None | Some(value: T)

  /**
   * One financial operation. `amount` and `currency` stand for
   * `operationAmount.amount` and `operationAmount.currency.name`. The
   * formatter does not read `amount` itself: it takes `amountText`, the
   * two-decimal rendering of this field, as a parameter.
   */
  datatype Op = Op(
    state: Option<string>,
    date: string,
    description: string,
    frm: Option<string>,
    to: Option<string>,
    amount: string,
    currency: string)
}
