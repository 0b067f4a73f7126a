// Results and errors shared by the codec.
module Common {

  /**
   * The errors the codec throws, one case per throw site: the same message
   * thrown from two places (a bad prefix character in `serialize`, a bad data
   * character in `deserialize`) is two cases.  The exception is
   * `InvalidBits`, which covers both throws of `convert`.
   */
  datatype Error =
    | InvalidPrefixCharacter   // serialize: a prefix character outside 0x20..0xff
    | InvalidValue             // serialize: a data value of more than five bits
    | InvalidLength            // deserialize: fewer than eight characters
    | NumberInPrefix           // deserialize: a digit before the separator
    | EmptyPrefix              // deserialize: the separator is the first character
    | TwoSeparators            // deserialize: a second separator (never raised: the scan stops at the first)
    | InvalidScanCharacter     // deserialize: a character that is not a letter, digit or ':'
    | MixedCase                // deserialize: upper and lower case letters before the separator
    | InvalidCharacter         // deserialize: a data character outside the alphabet
    | InvalidChecksum          // deserialize: the checksum does not leave the state at 1
    | MissingPrefix            // deserialize: no separator and no default prefix (the TypeError of `prefix.length`)
    | InvalidType              // encode: an address type other than 0 or 1
    | NonStandardLength        // encode: a hash length without a size code
    | InvalidPadding           // decode: five or more padding bits
    | NonZeroPadding           // decode: padding bits that are not zero
    | InvalidDataLength        // decode: the hash length does not match the size code
    | InvalidBits              // convert: a value too wide, or bad leftover bits

  datatype Result<T> = Ok(value: T) | Err(error: Error)

  datatype Option<T> = None | Some(value: T)

  /** A 16-bit code unit of a JavaScript string. */
  type CodeUnit = c: nat | c < 0x1_0000

  /** A JavaScript string, as its code units. */
  type JsString = seq<CodeUnit>

  /** An element of a Node.js Buffer. */
  type Byte = b: nat | b < 0x100

  /** Dropping the last element of a concatenation with a non-empty right part. */
  lemma InitOfConcat<T>(s: seq<T>, t: seq<T>)
    requires t != []
    ensures s + t != [] && (s + t)[..|s + t| - 1] == s + t[..|t| - 1] && (s + t)[|s + t| - 1] == t[|t| - 1]
  {
  }

  /** Taking every element leaves the sequence as it is. */
  lemma TakeAll<T>(s: seq<T>)
    ensures s[..|s|] == s
  {
  }

  /** A non-empty sequence is its front followed by its last element. */
  lemma InitLast<T>(s: seq<T>)
    requires s != []
    ensures s == s[..|s| - 1] + [s[|s| - 1]]
  {
  }
}
