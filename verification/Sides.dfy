/** The two sides. The C macros come in mirror-image pairs; here a pair is one operation with a side. */
module Sides {
  datatype Side = Left | Right {
    function Other(): Side { if this == Left then Right else Left }
  }
}
