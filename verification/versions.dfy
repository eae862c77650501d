/** The tag version, which decides which text encodings a frame may declare. */
module Versions {

  /** ID3v2.2, ID3v2.3 and ID3v2.4. */
  datatype Version = V2 | V3 | V4
}
