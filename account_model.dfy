/** The record types of the account manager (src/types/index.ts). */
module AccountModel {
  import opened Wrappers

  /** One tag attached to an account, `{ text: string }`. */
  datatype Label = Label(text: string)

  /**
   * The closed set of account kinds; `Local` is the literal 'Локальная'
   * that the application uses as the discriminant value.
   */
  datatype AccountType = LDAP | Local

  /** One flag per validated field; `true` means the field is in error. */
  datatype FieldErrors = FieldErrors(login: bool, password: bool)

  /**
   * An account record. `password` is `string | null`; `isValid`, `errors`
   * and `editMode` are derived or UI state carried in the record.
   */
  datatype Account = Account(
    id: string,
    labels: seq<Label>,
    accountType: AccountType,
    login: string,
    password: Option<string>,
    isValid: bool,
    errors: FieldErrors,
    editMode: bool)
}
