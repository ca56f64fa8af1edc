/** Account and consensus addresses, compared by value over their bytes
    (`sdk.AccAddress.Equals`). */
module Addresses {

  newtype Byte = b: int | 0 <= b < 256

  type Address = seq<Byte>
}
