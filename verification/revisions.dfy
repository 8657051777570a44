/** Where the source has a defect, the model keeps both behaviours: the code
    as written, and the evidently intended one. Operations that differ take a
    `Revision`; the rest of the model uses `Corrected`. */
module Revisions {
  datatype Revision = AsWritten | Corrected
}
