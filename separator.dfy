/** The `sep` value that switches a stream's delimiter and escape text in the middle of a row. */
module Separator {

  /** A delimiter character together with the text that stands for it inside fields. */
  datatype Sep = Sep(delimiter: char, escape: string)
}
