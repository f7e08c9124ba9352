/**
 * Solana public keys and their text form. The base58 codec (`Pubkey::from_str` and
 * `Pubkey::to_string`) is not modelled: the components that use it take it as a parameter.
 */
module Keys {
  import opened Wrappers
  import opened Encoding

  type Pubkey = k: seq<Byte> | |k| == 32 witness seq(32, _ => 0)

  /** `Pubkey::from_str` (None when the text is not a base58 key) and `Pubkey::to_string`. */
  datatype Base58 = Base58(decode: string -> Option<Pubkey>, encode: Pubkey -> string)
}
