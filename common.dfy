/** Outcome types shared by the contact book: an optional value, and a result
    that either carries a value or one of the failures the bot reports. */
module Common {

  datatype Option<+T> = None | Some(value: T)

  /** The failures the bot turns into a one-line reply. Every one of them is a
      `ValueError` in the bot, so the reply is the error's own message. */
  datatype Error =
    | InvalidPhone                        // "Phone number must be 10 digits."
    | InvalidDate                         // "Invalid date format. Use DD.MM.YYYY"
    | PhoneNotFound                       // "Phone number not found."
    | ContactNotFound(name: string)       // "Contact <name> not found."
    | NotEnoughValues(expected: nat, got: nat, atLeast: bool)  // tuple unpacking with too few arguments
    | TooManyValues(expected: nat)        // tuple unpacking with too many arguments
    | DayOutOfRange                       // date.replace onto 29 February of a common year
    | YearOutOfRange(year: int)           // date.replace onto a year outside 1..9999
    | DateMismatch(text: string)          // strptime on a stored birthday that does not parse

  datatype Result<+T> = Ok(value: T) | Err(error: Error)
}
